/** The command protocol as a state machine.  Every section that runs under the
    manager's lock is one step, and so is each action taken outside of it: the push
    by a caller after unlocking and the three actions of the worker thread.  Steps of
    callers, worker, firmware and timers interleave in any order. */
module CmdProtocol {
  import opened CmdModel

  /** The worker thread: waiting on its semaphore, woken, or about to push the command
      it found.  `Stray` is the list head taken for a command. */
  datatype Worker = Idle | Woken | Holding(num: nat) | Stray

  datatype Sys = Sys(
    bus: Bus,
    m: Mgr,
    callers: set<nat>,     // accepted, not deferred, caller has not pushed yet
    worker: Worker,
    gone: map<nat, Cmd>,   // commands unlinked from the list, as they were left
    ackSeen: set<nat>,     // commands whose ACK was processed
    cfmSeen: map<nat, nat>, // commands whose confirmation was accepted: the message's identifier
    crashed: bool)         // a command timed out

  datatype Event =
    | Submit(r: Request)
    | CallerPush(num: nat)
    | Ack(num: nat)
    | Message(reqid: nat, accepts: set<nat>)
    | WorkerWake
    | WorkerFind
    | WorkerPush
    | Timeout(num: nat)
    | Drain

  function Init(bus: Bus, maxSz: nat): Sys {
    Sys(bus, Fresh(maxSz), {}, Idle, map[], {}, map[], false)
  }

  predicate InQueue(q: seq<Cmd>, num: nat) {
    IndexOf(q, num) < |q|
  }

  /** When an event can happen.  The firmware acknowledges a command it was given, once;
      it may send any message at any time.  Callers and worker are followed only while
      the manager is up.  A blocking caller may time out once it waits. */
  ghost predicate Enabled(s: Sys, e: Event) {
    match e
    case Submit(_) => !s.m.mode.Deinit?
    case CallerPush(n) => s.m.mode.Inited? && n in s.callers
    case Ack(n) =>
      !s.m.mode.Deinit? && n in s.m.pushed && InQueue(s.m.q, n) && s.m.q[IndexOf(s.m.q, n)].waitAck
    case Message(_, _) => !s.m.mode.Deinit?
    case WorkerWake => s.m.mode.Inited? && s.worker.Idle? && s.m.sem > 0
    case WorkerFind => s.m.mode.Inited? && s.worker.Woken?
    case WorkerPush => s.m.mode.Inited? && s.worker.Holding?
    case Timeout(n) =>
      && !s.m.mode.Deinit? && n < s.m.accepted && n !in s.callers
      && (InQueue(s.m.q, n) ==> !s.m.q[IndexOf(s.m.q, n)].req.nonblock)
    case Drain => !s.m.mode.Deinit?
  }

  /** `c` as the last step left it goes to `gone` if that step unlinked it. */
  function Retire(s: Sys, m': Mgr, c: Cmd): Sys {
    if |m'.q| < |s.m.q| then s.(m := m', gone := s.gone[c.num := c]) else s.(m := m')
  }

  function AfterAck(s: Sys, n: nat): Sys {
    var q := s.m.q;
    var i := IndexOf(q, n);
    if i == |q| then s
    else
      var s1 := Retire(s, Acked(s.bus, s.m, i), q[i].(waitAck := false).Closed());
      if AckHit(q, q[i].tkn) < |q| then s1.(ackSeen := s.ackSeen + {n}) else s1
  }

  function AfterMessage(s: Sys, reqid: nat, accepts: set<nat>): Sys {
    var q := s.m.q;
    var i := FirstTaker(q, reqid, accepts);
    if i == |q| then s
    else
      var s1 := Retire(s, Confirmed(s.bus, s.m, reqid, accepts), q[i].(waitCfm := false).Closed());
      s1.(cfmSeen := s.cfmSeen[q[i].num := reqid])
  }

  function AfterTimeout(s: Sys, n: nat): Sys {
    var q := s.m.q;
    var i := IndexOf(q, n);
    var s1 := s.(crashed := true);
    if i == |q| then s1.(m := TimedOut(s.m, i))
    else Retire(s1, TimedOut(s.m, i), q[i].(result := ETIMEDOUT).Closed())
  }

  function AfterDrain(s: Sys): Sys {
    var m, q := s.m, s.m.q;
    s.(m := Drained(m),
       gone := s.gone + map n | 0 <= n < m.accepted && InQueue(q, n) :: DrainedCmd(q[IndexOf(q, n)]))
  }

  function Apply(s: Sys, e: Event): Sys {
    var m, q := s.m, s.m.q;
    match e
    case Submit(r) =>
      s.(m := Queued(s.bus, m, r),
         callers := if Judge(s.bus, m) == Accepted(false) then s.callers + {m.accepted} else s.callers)
    case CallerPush(n) =>
      var i := IndexOf(q, n);
      var s1 := s.(callers := s.callers - {n});
      if i == |q| then s1 else s1.(m := HandedOver(s.bus, m, i))
    case Ack(n) => AfterAck(s, n)
    case Message(reqid, accepts) => AfterMessage(s, reqid, accepts)
    case WorkerWake =>
      if m.sem == 0 then s else s.(m := m.(sem := m.sem - 1), worker := Woken)
    case WorkerFind =>
      var i := FirstWaitPush(q);
      s.(worker := if i < |q| then Holding(q[i].num) else Stray)
    case WorkerPush =>
      if !s.worker.Holding? then s
      else
        var i := IndexOf(q, s.worker.num);
        if i == |q| then s.(worker := Stray) else s.(m := Pushed(m, i), worker := Idle)
    case Timeout(n) => AfterTimeout(s, n)
    case Drain => AfterDrain(s)
  }

  ghost predicate Run(s: Sys, es: seq<Event>)
    decreases |es|
  {
    es == [] || (Enabled(s, es[0]) && Run(Apply(s, es[0]), es[1..]))
  }

  ghost function After(s: Sys, es: seq<Event>): Sys
    decreases |es|
  {
    if es == [] then s else After(Apply(s, es[0]), es[1..])
  }

  // ---------------------------------------------------------------- invariants

  /** The first n commands, in the order they were accepted. */
  function Range(n: nat): (r: seq<nat>)
    ensures |r| == n && forall i :: 0 <= i < n ==> r[i] == i
  {
    seq(n, i => i)
  }

  /** Numbers, tokens and counters. */
  ghost predicate Counted(m: Mgr) {
    && m.queueSz == |m.q| <= m.maxSz
    && m.nextTkn == m.accepted % TKN_MOD
    && (forall i :: 0 <= i < |m.q| ==> m.q[i].num < m.accepted && m.q[i].tkn == m.q[i].num % TKN_MOD)
    && (forall i, j :: 0 <= i < j < |m.q| ==> m.q[i].num < m.q[j].num)
  }

  /** The commands waiting for their ACK are the last ones of the list, carry the last
      numbers given out, and all but the first of them wait to be pushed. */
  ghost predicate Suffix(m: Mgr, k: nat)
    requires k <= |m.q|
  {
    && (forall i :: 0 <= i < k ==> !m.q[i].waitPush && !m.q[i].waitAck && m.q[i].waitCfm)
    && (forall i :: k <= i < |m.q| ==> m.q[i].waitAck && m.q[i].num == m.accepted - |m.q| + i)
    && (forall i :: k < i < |m.q| ==> m.q[i].waitPush)
  }

  /** Whose turn it is with the first unacknowledged command: its caller is about to hand
      it over, the worker was signalled, has woken, holds it, or it is in flight. */
  datatype Phase = AtCaller | Signalled | Taken | InHand | InFlight

  function PhaseOf(s: Sys): Phase {
    if s.callers != {} then AtCaller
    else if s.m.sem > 0 then Signalled
    else if s.worker.Woken? then Taken
    else if s.worker.Holding? then InHand
    else InFlight
  }

  /** In phase `ph` with command `c`, and with no other: everything before `c` was pushed. */
  ghost predicate TurnIs(s: Sys, c: Cmd, ph: Phase) {
    && s.callers == (if ph.AtCaller? then {c.num} else {})
    && s.m.sem == (if ph.Signalled? then 1 else 0)
    && s.worker == (if ph.Taken? then Woken else if ph.InHand? then Holding(c.num) else Idle)
    && c.waitPush == (ph.Signalled? || ph.Taken? || ph.InHand?)
    && s.m.pushed == Range(if ph.InFlight? then c.num + 1 else c.num)
  }

  ghost predicate Turn(s: Sys, c: Cmd) {
    TurnIs(s, c, PhaseOf(s))
  }

  ghost predicate Quiet(s: Sys) {
    s.callers == {} && s.m.sem == 0 && s.worker.Idle? && s.m.pushed == Range(s.m.accepted)
  }

  /** SDIO and USB: the next command is released by the ACK.  The first k commands wait
      for their confirmation only. */
  ghost predicate Threaded(s: Sys, k: nat) {
    && k <= |s.m.q|
    && Counted(s.m)
    && Suffix(s.m, k)
    && (if k == |s.m.q| then Quiet(s) else Turn(s, s.m.q[k]))
  }

  ghost predicate InvThreaded(s: Sys) {
    Threaded(s, FirstUnacked(s.m.q))
  }

  /** PCIe: the next command is released when the one in flight is complete. */
  ghost predicate OneAtATime(m: Mgr) {
    && Counted(m)
    && m.sem == 0
    && (forall i :: 0 <= i < |m.q| ==> m.q[i].num == m.accepted - |m.q| + i)
    && (forall i :: 0 < i < |m.q| ==> m.q[i].waitPush && m.q[i].waitAck)
    && (m.q != [] ==> !m.q[0].waitPush && !m.q[0].WaitComplete())
  }

  ghost predicate InvPcie(s: Sys) {
    && OneAtATime(s.m)
    && if s.m.q == [] then Quiet(s)
       else Turn(s, s.m.q[0]) && (PhaseOf(s).AtCaller? ==> s.m.q[0].waitAck)
  }

  ghost predicate InvUp(s: Sys) {
    if s.bus.Pcie? then InvPcie(s) else InvThreaded(s)
  }

  ghost predicate Inv(s: Sys) {
    s.m.maxSz > 0 && (s.m.mode.Inited? ==> InvUp(s))
  }

  // ---------------------------------------------------------------- list facts

  lemma IndexUnique(q: seq<Cmd>, i: nat)
    requires i < |q|
    requires forall j, l :: 0 <= j < l < |q| ==> q[j].num < q[l].num
    ensures IndexOf(q, q[i].num) == i
  {
    var k := IndexOf(q, q[i].num);
    assert q[k].num == q[i].num;
  }

  lemma FirstWaitPushIs(q: seq<Cmd>, from: nat, w: nat)
    requires from <= w <= |q|
    requires forall j :: from <= j < w ==> !q[j].waitPush
    requires w < |q| ==> q[w].waitPush
    ensures FirstWaitPush(q, from) == w
  {
    var x := FirstWaitPush(q, from);
    assert x == |q| || !(from <= x < w);
  }

  lemma FirstUnackedIs(q: seq<Cmd>, k: nat)
    requires k <= |q|
    requires forall j :: 0 <= j < k ==> !q[j].waitAck
    requires k < |q| ==> q[k].waitAck
    ensures FirstUnacked(q) == k
  {
    var x := FirstUnacked(q);
    assert x == |q| || !(0 <= x < k);
  }

  /** The lookup by token finds a command no later than the one acknowledged, provided
      nothing up to that one waits to be pushed; what the ACK releases is then the first
      command after it in WAIT_PUSH.  Equal tokens on the list do no harm. */
  lemma AckLookup(q: seq<Cmd>, i: nat)
    requires i < |q|
    requires forall j :: 0 <= j <= i ==> !q[j].waitPush
    ensures AckHit(q, q[i].tkn) <= i
    ensures AckNext(q, q[i].tkn) == FirstWaitPush(q, i + 1)
  {
    var t := FirstTkn(q, q[i].tkn);
    assert t <= i;
    var w := FirstWaitPush(q, i + 1);
    FirstWaitPushIs(q, 0, w);
    FirstWaitPushIs(q, t + 1, w);
  }

  // ---------------------------------------------------------------- counters

  lemma CountedAppend(bus: Bus, m: Mgr, r: Request)
    requires Counted(m) && Judge(bus, m).Accepted? && m.maxSz > 0
    ensures Counted(Queued(bus, m, r))
  {
  }

  lemma CountedUnlink(m: Mgr, i: nat)
    requires Counted(m) && i < |m.q|
    ensures Counted(Unlinked(m, i))
  {
  }

  /** Changing wait flags leaves numbers and tokens alone. */
  lemma CountedFlags(m: Mgr, i: nat, c: Cmd)
    requires Counted(m) && i < |m.q| && c.num == m.q[i].num && c.tkn == m.q[i].tkn
    ensures Counted(m.(q := m.q[i := c]))
  {
  }

  lemma RangeGrows(n: nat)
    ensures Range(n) + [n] == Range(n + 1)
  {
  }

  // ---------------------------------------------------------------- the suffix

  lemma SuffixAppend(bus: Bus, m: Mgr, r: Request, k: nat)
    requires k <= |m.q| && Suffix(m, k) && Judge(bus, m).Accepted?
    requires k < |m.q| ==> Busy(bus, m.q[|m.q| - 1])
    ensures Suffix(Queued(bus, m, r), k)
  {
  }

  lemma SuffixConfirm(m: Mgr, k: nat, i: nat)
    requires k <= |m.q| && i < |m.q| && Suffix(m, k)
    ensures
      var m1 := m.(q := m.q[i := m.q[i].(waitCfm := false)]);
      if k <= i then Suffix(m1, k) else Suffix(Unlinked(m1, i), k - 1)
  {
  }

  lemma SuffixAck(m: Mgr, k: nat)
    requires k < |m.q| && Suffix(m, k) && !m.q[k].waitPush
    ensures m.q[k].waitCfm ==> Suffix(m.(q := m.q[k := m.q[k].(waitAck := false)]), k + 1)
    ensures Suffix(Unlinked(m.(q := m.q[k := m.q[k].(waitAck := false)]), k), k)
  {
  }

  lemma ThreadedInv(s: Sys, k: nat)
    requires Threaded(s, k)
    ensures FirstUnacked(s.m.q) == k && InvThreaded(s)
  {
    FirstUnackedIs(s.m.q, k);
  }

  // ---------------------------------------------------------------- steps on SDIO and USB

  lemma SubmitThreaded(s: Sys, r: Request)
    requires !s.bus.Pcie? && s.m.mode.Inited? && s.m.maxSz > 0 && InvThreaded(s)
    requires Judge(s.bus, s.m).Accepted?
    ensures InvThreaded(Apply(s, Submit(r)))
  {
    var s' := Apply(s, Submit(r));
    var k := FirstUnacked(s.m.q);
    CountedAppend(s.bus, s.m, r);
    SuffixAppend(s.bus, s.m, r, k);
    FirstUnackedIs(s'.m.q, k);
  }

  lemma HandedOverThreaded(s: Sys, k: nat)
    requires !s.bus.Pcie? && Threaded(s, k) && k < |s.m.q| && PhaseOf(s).AtCaller?
    ensures Threaded(s.(callers := {}, m := HandedOver(s.bus, s.m, k)), k)
  {
    RangeGrows(s.m.q[k].num);
    CountedFlags(s.m, k, s.m.q[k].(waitPush := true));
  }

  lemma CallerPushThreaded(s: Sys, n: nat)
    requires !s.bus.Pcie? && InvThreaded(s) && Enabled(s, CallerPush(n))
    ensures InvThreaded(Apply(s, CallerPush(n)))
  {
    var k := FirstUnacked(s.m.q);
    IndexUnique(s.m.q, k);
    HandedOverThreaded(s, k);
    FirstUnackedIs(HandedOver(s.bus, s.m, k).q, k);
  }

  lemma WorkerWakeThreaded(s: Sys)
    requires !s.bus.Pcie? && InvThreaded(s) && Enabled(s, WorkerWake)
    ensures InvThreaded(Apply(s, WorkerWake))
  {
  }

  lemma WorkerFindThreaded(s: Sys)
    requires !s.bus.Pcie? && InvThreaded(s) && Enabled(s, WorkerFind)
    ensures InvThreaded(Apply(s, WorkerFind))
  {
    FirstWaitPushIs(s.m.q, 0, FirstUnacked(s.m.q));
  }

  lemma PushedThreaded(s: Sys, k: nat)
    requires !s.bus.Pcie? && Threaded(s, k) && k < |s.m.q| && PhaseOf(s).InHand?
    ensures Threaded(s.(m := Pushed(s.m, k), worker := Idle), k)
  {
    RangeGrows(s.m.q[k].num);
    CountedFlags(s.m, k, s.m.q[k].(waitPush := false));
  }

  lemma WorkerPushThreaded(s: Sys)
    requires !s.bus.Pcie? && InvThreaded(s) && Enabled(s, WorkerPush)
    ensures InvThreaded(Apply(s, WorkerPush))
  {
    var k := FirstUnacked(s.m.q);
    IndexUnique(s.m.q, k);
    PushedThreaded(s, k);
    FirstUnackedIs(Pushed(s.m, k).q, k);
  }

  /** Only the first unacknowledged command can be acknowledged, and it is in flight. */
  lemma AckTarget(s: Sys, n: nat)
    requires s.m.mode.Inited? && InvUp(s) && Enabled(s, Ack(n))
    ensures IndexOf(s.m.q, n) == if s.bus.Pcie? then 0 else FirstUnacked(s.m.q)
    ensures PhaseOf(s).InFlight?
  {
    var q := s.m.q;
    var k := if s.bus.Pcie? then 0 else FirstUnacked(q);
    var i := IndexOf(q, n);
    assert k <= i < |q|;
    assert q[k].num <= q[i].num;
  }

  /** What the ACK of the first unacknowledged command does on SDIO and USB: the next
      one, if there is one, is released through the semaphore. */
  lemma AckedThreaded(bus: Bus, m: Mgr, k: nat)
    requires !bus.Pcie? && k < |m.q| && Suffix(m, k) && !m.q[k].waitPush
    ensures AckHit(m.q, m.q[k].tkn) < |m.q|
    ensures Acked(bus, m, k) == Released(m, k)
  {
    AckLookup(m.q, k);
    FirstWaitPushIs(m.q, k + 1, k + 1);
  }

  function Released(m: Mgr, k: nat): Mgr
    requires k < |m.q|
  {
    var m1 := m.(q := m.q[k := m.q[k].(waitAck := false)], sem := if k + 1 < |m.q| then m.sem + 1 else m.sem);
    if m.q[k].waitCfm then m1 else Unlinked(m1, k)
  }

  lemma ReleasedThreaded(s: Sys, k: nat)
    requires !s.bus.Pcie? && Threaded(s, k) && k < |s.m.q| && PhaseOf(s).InFlight?
    ensures Threaded(s.(m := Released(s.m, k)), if s.m.q[k].waitCfm then k + 1 else k)
  {
    var m1 := s.m.(q := s.m.q[k := s.m.q[k].(waitAck := false)]);
    CountedFlags(s.m, k, m1.q[k]);
    CountedUnlink(m1, k);
    SuffixAck(s.m, k);
  }

  /** What an ACK changes besides the manager is history. */
  lemma AckIs(s: Sys, n: nat)
    requires InQueue(s.m.q, n)
    ensures
      var s' := Apply(s, Ack(n));
      && s' == s.(m := Acked(s.bus, s.m, IndexOf(s.m.q, n)), gone := s'.gone, ackSeen := s'.ackSeen)
      && (s'.gone == s.gone || (n in s'.gone && s'.gone == s.gone[n := s'.gone[n]]))
  {
    var i := IndexOf(s.m.q, n);
    RetireIs(s, Acked(s.bus, s.m, i), s.m.q[i].(waitAck := false).Closed());
  }

  lemma RetireIs(s: Sys, m': Mgr, c: Cmd)
    ensures
      var s1 := Retire(s, m', c);
      && s1 == s.(m := m', gone := s1.gone)
      && (s1.gone == s.gone || (c.num in s1.gone && s1.gone == s.gone[c.num := s1.gone[c.num]]))
  {
  }

  lemma AckedInvThreaded(s: Sys, k: nat)
    requires !s.bus.Pcie? && Threaded(s, k) && k < |s.m.q| && PhaseOf(s).InFlight?
    ensures InvThreaded(s.(m := Acked(s.bus, s.m, k)))
  {
    AckedThreaded(s.bus, s.m, k);
    ReleasedThreaded(s, k);
    ThreadedInv(s.(m := Released(s.m, k)), if s.m.q[k].waitCfm then k + 1 else k);
  }

  lemma AckThreaded(s: Sys, n: nat)
    requires !s.bus.Pcie? && InvThreaded(s) && s.m.mode.Inited? && Enabled(s, Ack(n))
    ensures InvThreaded(Apply(s, Ack(n)))
  {
    var k := FirstUnacked(s.m.q);
    AckTarget(s, n);
    AckedInvThreaded(s, k);
    AckIs(s, n);
    InvThreadedSame(s.(m := Acked(s.bus, s.m, k)), Apply(s, Ack(n)));
  }

  /** The invariant does not look at the history. */
  lemma InvThreadedSame(s: Sys, s': Sys)
    requires InvThreaded(s) && s' == s.(gone := s'.gone, ackSeen := s'.ackSeen, cfmSeen := s'.cfmSeen)
    ensures InvThreaded(s')
  {
  }

  /** State after command `i`, one of the first k or a later one, was confirmed. */
  lemma ConfirmedThreaded(s: Sys, k: nat, i: nat)
    requires !s.bus.Pcie? && Threaded(s, k) && i < |s.m.q|
    ensures
      var m1 := s.m.(q := s.m.q[i := s.m.q[i].(waitCfm := false)]);
      if k <= i then Threaded(s.(m := m1), k) else Threaded(s.(m := Unlinked(m1, i)), k - 1)
  {
    var m1 := s.m.(q := s.m.q[i := s.m.q[i].(waitCfm := false)]);
    CountedFlags(s.m, i, m1.q[i]);
    CountedUnlink(m1, i);
    SuffixConfirm(s.m, k, i);
  }

  lemma ConfirmedInv(s: Sys, i: nat)
    requires !s.bus.Pcie? && InvThreaded(s) && i < |s.m.q|
    ensures
      var m1 := s.m.(q := s.m.q[i := s.m.q[i].(waitCfm := false)]);
      InvThreaded(s.(m := if s.m.q[i].waitAck then m1 else Unlinked(m1, i)))
  {
    var k := FirstUnacked(s.m.q);
    ConfirmedThreaded(s, k, i);
    var m1 := s.m.(q := s.m.q[i := s.m.q[i].(waitCfm := false)]);
    if s.m.q[i].waitAck {
      ThreadedInv(s.(m := m1), k);
    } else {
      ThreadedInv(s.(m := Unlinked(m1, i)), k - 1);
    }
  }

  lemma ConfirmedIs(bus: Bus, m: Mgr, reqid: nat, accepts: set<nat>)
    requires !bus.Pcie? && FirstTaker(m.q, reqid, accepts) < |m.q|
    ensures
      var i := FirstTaker(m.q, reqid, accepts);
      var m1 := m.(q := m.q[i := m.q[i].(waitCfm := false)]);
      Confirmed(bus, m, reqid, accepts) == if m.q[i].waitAck then m1 else Unlinked(m1, i)
  {
  }

  lemma MessageThreaded(s: Sys, reqid: nat, accepts: set<nat>)
    requires !s.bus.Pcie? && InvThreaded(s)
    ensures InvThreaded(Apply(s, Message(reqid, accepts)))
  {
    var i := FirstTaker(s.m.q, reqid, accepts);
    if i < |s.m.q| {
      ConfirmedInv(s, i);
      ConfirmedIs(s.bus, s.m, reqid, accepts);
      InvThreadedSame(s.(m := Confirmed(s.bus, s.m, reqid, accepts)), Apply(s, Message(reqid, accepts)));
    }
  }

  // ---------------------------------------------------------------- steps on PCIe

  lemma SubmitPcie(s: Sys, r: Request)
    requires s.bus.Pcie? && s.m.mode.Inited? && s.m.maxSz > 0 && InvPcie(s)
    requires Judge(s.bus, s.m).Accepted?
    ensures InvPcie(Apply(s, Submit(r)))
    ensures s.m.q != [] ==> Judge(s.bus, s.m) == Accepted(true)
  {
    CountedAppend(s.bus, s.m, r);
  }

  lemma CallerPushPcie(s: Sys, n: nat)
    requires s.bus.Pcie? && InvPcie(s) && Enabled(s, CallerPush(n))
    ensures InvPcie(Apply(s, CallerPush(n)))
  {
    IndexUnique(s.m.q, 0);
    RangeGrows(n);
  }

  /** The worker thread has nothing to do on PCIe. */
  lemma WorkerUnused(s: Sys)
    requires s.bus.Pcie? && InvPcie(s)
    ensures !Enabled(s, WorkerWake) && !Enabled(s, WorkerFind) && !Enabled(s, WorkerPush)
  {
  }

  /** The head in flight closes; the next command, if there is one, is pushed. */
  function HeadClosed(m: Mgr): Mgr
    requires m.q != []
  {
    Unlinked(if |m.q| > 1 then Pushed(m, 1) else m, 0)
  }

  lemma HeadClosedCounted(m: Mgr, c: Cmd)
    requires OneAtATime(m) && m.q != [] && c.num == m.q[0].num && c.tkn == m.q[0].tkn
    ensures OneAtATime(HeadClosed(m.(q := m.q[0 := c])))
  {
    var m1 := m.(q := m.q[0 := c]);
    CountedFlags(m, 0, c);
    if |m.q| > 1 {
      CountedFlags(m1, 1, m.q[1].(waitPush := false));
      CountedUnlink(Pushed(m1, 1), 0);
    } else {
      CountedUnlink(m1, 0);
    }
  }

  lemma HeadClosedPcie(s: Sys, c: Cmd)
    requires s.bus.Pcie? && InvPcie(s) && s.m.q != [] && PhaseOf(s).InFlight?
    requires c.num == s.m.q[0].num && c.tkn == s.m.q[0].tkn
    ensures InvPcie(s.(m := HeadClosed(s.m.(q := s.m.q[0 := c]))))
  {
    HeadClosedCounted(s.m, c);
    RangeGrows(c.num + 1);
  }

  lemma AckedPcie(bus: Bus, m: Mgr)
    requires bus.Pcie? && OneAtATime(m) && m.q != []
    ensures AckHit(m.q, m.q[0].tkn) == 0
    ensures
      var m1 := m.(q := m.q[0 := m.q[0].(waitAck := false)]);
      Acked(bus, m, 0) == if m.q[0].waitCfm then m1 else HeadClosed(m1)
  {
    AckLookup(m.q, 0);
    FirstWaitPushIs(m.q, 1, 1);
  }

  lemma AckedInvPcie(s: Sys)
    requires s.bus.Pcie? && InvPcie(s) && s.m.q != [] && PhaseOf(s).InFlight?
    ensures InvPcie(s.(m := Acked(s.bus, s.m, 0)))
  {
    AckedPcie(s.bus, s.m);
    var c := s.m.q[0].(waitAck := false);
    CountedFlags(s.m, 0, c);
    if !c.waitCfm { HeadClosedPcie(s, c); }
  }

  lemma InvPcieSame(s: Sys, s': Sys)
    requires InvPcie(s) && s' == s.(gone := s'.gone, ackSeen := s'.ackSeen, cfmSeen := s'.cfmSeen)
    ensures InvPcie(s')
  {
  }

  lemma AckPcie(s: Sys, n: nat)
    requires s.bus.Pcie? && InvPcie(s) && s.m.mode.Inited? && Enabled(s, Ack(n))
    ensures InvPcie(Apply(s, Ack(n)))
  {
    AckTarget(s, n);
    AckedInvPcie(s);
    AckIs(s, n);
    InvPcieSame(s.(m := Acked(s.bus, s.m, 0)), Apply(s, Ack(n)));
  }

  lemma ConfirmedInvPcie(s: Sys, i: nat)
    requires s.bus.Pcie? && InvPcie(s) && i < |s.m.q| && s.m.q[i].waitCfm
    ensures
      var m1 := s.m.(q := s.m.q[i := s.m.q[i].(waitCfm := false)]);
      InvPcie(s.(m := if s.m.q[i].waitAck then m1 else HeadClosed(m1)))
  {
    var c := s.m.q[i].(waitCfm := false);
    CountedFlags(s.m, i, c);
    if !s.m.q[i].waitAck { HeadClosedPcie(s, c); }
  }

  lemma ConfirmedIsPcie(bus: Bus, m: Mgr, reqid: nat, accepts: set<nat>)
    requires bus.Pcie? && OneAtATime(m) && FirstTaker(m.q, reqid, accepts) < |m.q|
    ensures
      var i := FirstTaker(m.q, reqid, accepts);
      var m1 := m.(q := m.q[i := m.q[i].(waitCfm := false)]);
      Confirmed(bus, m, reqid, accepts) == if m.q[i].waitAck then m1 else HeadClosed(m1)
  {
  }

  lemma MessagePcie(s: Sys, reqid: nat, accepts: set<nat>)
    requires s.bus.Pcie? && InvPcie(s)
    ensures InvPcie(Apply(s, Message(reqid, accepts)))
  {
    var i := FirstTaker(s.m.q, reqid, accepts);
    if i < |s.m.q| {
      ConfirmedInvPcie(s, i);
      ConfirmedIsPcie(s.bus, s.m, reqid, accepts);
      InvPcieSame(s.(m := Confirmed(s.bus, s.m, reqid, accepts)), Apply(s, Message(reqid, accepts)));
    }
  }

  // ---------------------------------------------------------------- runs

  /** What no step changes, and which steps leave the manager up. */
  lemma StepFrame(s: Sys, e: Event)
    requires Enabled(s, e)
    ensures Apply(s, e).bus == s.bus && Apply(s, e).m.maxSz == s.m.maxSz
    ensures Apply(s, e).m.mode ==
            if e.Timeout? then Crashed else if e.Drain? then Deinit else s.m.mode
  {
    match e
    case Submit(_) =>
    case CallerPush(_) =>
    case Ack(n) => AckIs(s, n);
    case Message(_, _) =>
    case WorkerWake =>
    case WorkerFind =>
    case WorkerPush =>
    case Timeout(_) =>
    case Drain =>
  }

  lemma StepThreaded(s: Sys, e: Event)
    requires !s.bus.Pcie? && s.m.mode.Inited? && s.m.maxSz > 0 && InvThreaded(s)
    requires Enabled(s, e) && !e.Timeout? && !e.Drain?
    ensures InvThreaded(Apply(s, e))
  {
    match e
    case Submit(r) => if Judge(s.bus, s.m).Accepted? { SubmitThreaded(s, r); }
    case CallerPush(n) => CallerPushThreaded(s, n);
    case Ack(n) => AckThreaded(s, n);
    case Message(r, a) => MessageThreaded(s, r, a);
    case WorkerWake => WorkerWakeThreaded(s);
    case WorkerFind => WorkerFindThreaded(s);
    case WorkerPush => WorkerPushThreaded(s);
  }

  lemma StepPcie(s: Sys, e: Event)
    requires s.bus.Pcie? && s.m.mode.Inited? && s.m.maxSz > 0 && InvPcie(s)
    requires Enabled(s, e) && !e.Timeout? && !e.Drain?
    ensures InvPcie(Apply(s, e))
  {
    match e
    case Submit(r) => if Judge(s.bus, s.m).Accepted? { SubmitPcie(s, r); }
    case CallerPush(n) => CallerPushPcie(s, n);
    case Ack(n) => AckPcie(s, n);
    case Message(r, a) => MessagePcie(s, r, a);
    case _ => WorkerUnused(s);
  }

  lemma StepKeeps(s: Sys, e: Event)
    requires Inv(s) && Enabled(s, e)
    ensures Inv(Apply(s, e))
  {
    StepFrame(s, e);
    if s.m.mode.Inited? && !e.Timeout? && !e.Drain? {
      if s.bus.Pcie? { StepPcie(s, e); } else { StepThreaded(s, e); }
    }
  }

  /** The invariant holds after every run. */
  lemma {:induction false} RunKeeps(s: Sys, es: seq<Event>)
    requires Inv(s) && Run(s, es)
    ensures Inv(After(s, es)) && After(s, es).bus == s.bus
    decreases |es|
  {
    if es != [] {
      var s1 := Apply(s, es[0]);
      StepKeeps(s, es[0]);
      StepFrame(s, es[0]);
      assert After(s, es) == After(s1, es[1..]);
      RunKeeps(s1, es[1..]);
    }
  }
}
