/** The command manager's data and the effect of each of its handlers, as values.

    A command keeps the flag bits of `struct aml_cmd` as booleans.  `num` is the
    order in which the manager accepted the command; it stands for the address of
    the command, which is how the handlers and the firmware refer to it. */
module CmdModel {

  datatype Bus = Pcie | Sdio | Usb

  datatype Mode = Deinit | Inited | Crashed

  const EINTR := -4
  const ENOMEM := -12
  const EPIPE := -32
  const ETIMEDOUT := -110

  /** Tokens are 32-bit counters. */
  const TKN_MOD := 0x1_0000_0000

  /** What a caller asks for: the flags set before the command is queued. */
  datatype Request = Request(reqid: nat, nonblock: bool, reqCfm: bool, callThread: bool)

  datatype Cmd = Cmd(
    num: nat,
    tkn: nat,
    req: Request,
    waitPush: bool,
    waitAck: bool,
    waitCfm: bool,
    done: bool,
    result: int,
    signals: nat)   // how often complete() was called on the command's completion
  {
    predicate WaitComplete() { !waitAck && !waitCfm }

    /** Closing a command: it is done; a blocking one that waits for nothing any more
        gets result 0 and wakes its caller. */
    function Closed(): Cmd {
      var c := this.(done := true);
      if !c.req.nonblock && c.WaitComplete() then c.(result := 0, signals := c.signals + 1) else c
    }
  }

  /** The manager, with the worker's semaphore, the firmware mailbox (numbers of the
      commands pushed so far) and the number of commands accepted so far. */
  datatype Mgr = Mgr(
    mode: Mode,
    nextTkn: nat,
    queueSz: int,
    maxSz: nat,
    q: seq<Cmd>,
    sem: nat,
    pushed: seq<nat>,
    accepted: nat)

  function Fresh(maxSz: nat): Mgr {
    Mgr(Inited, 0, 0, maxSz, [], 0, [], 0)
  }

  function Without<T>(s: seq<T>, i: nat): seq<T>
    requires i < |s|
  {
    s[..i] + s[i + 1..]
  }

  // ---------------------------------------------------------------- list walks
  // Each returns the least index, from `from` on, with the property, or the length of
  // the list.

  function IndexOf(q: seq<Cmd>, num: nat, from: nat := 0): (i: nat)
    requires from <= |q|
    ensures from <= i <= |q|
    ensures forall j :: from <= j < i ==> q[j].num != num
    ensures i < |q| ==> q[i].num == num
    decreases |q| - from
  {
    if from == |q| || q[from].num == num then from else IndexOf(q, num, from + 1)
  }

  function FirstUnacked(q: seq<Cmd>, from: nat := 0): (i: nat)
    requires from <= |q|
    ensures from <= i <= |q|
    ensures forall j :: from <= j < i ==> !q[j].waitAck
    ensures i < |q| ==> q[i].waitAck
    decreases |q| - from
  {
    if from == |q| || q[from].waitAck then from else FirstUnacked(q, from + 1)
  }

  function FirstTkn(q: seq<Cmd>, tkn: nat, from: nat := 0): (i: nat)
    requires from <= |q|
    ensures from <= i <= |q|
    ensures forall j :: from <= j < i ==> q[j].tkn != tkn
    ensures i < |q| ==> q[i].tkn == tkn
    decreases |q| - from
  {
    if from == |q| || q[from].tkn == tkn then from else FirstTkn(q, tkn, from + 1)
  }

  /** The first command not yet handed to the firmware. */
  function FirstWaitPush(q: seq<Cmd>, from: nat := 0): (i: nat)
    requires from <= |q|
    ensures from <= i <= |q|
    ensures forall j :: from <= j < i ==> !q[j].waitPush
    ensures i < |q| ==> q[i].waitPush
    decreases |q| - from
  {
    if from == |q| || q[from].waitPush then from else FirstWaitPush(q, from + 1)
  }

  /** A command takes a confirmation if it waits for that message and its callback
      (result 0 exactly for the commands in `accepts`) does not turn it down. */
  predicate Takes(c: Cmd, reqid: nat, accepts: set<nat>) {
    c.req.reqid == reqid && c.waitCfm && c.num in accepts
  }

  function FirstTaker(q: seq<Cmd>, reqid: nat, accepts: set<nat>, from: nat := 0): (i: nat)
    requires from <= |q|
    ensures from <= i <= |q|
    ensures forall j :: from <= j < i ==> !Takes(q[j], reqid, accepts)
    ensures i < |q| ==> Takes(q[i], reqid, accepts)
    decreases |q| - from
  {
    if from == |q| || Takes(q[from], reqid, accepts) then from else FirstTaker(q, reqid, accepts, from + 1)
  }

  // ---------------------------------------------------------------- cmd_mgr_queue

  datatype Verdict = Accepted(defer: bool) | Refused(error: int)

  /** Whether a new command must wait, seen from the command queued last. */
  predicate Busy(bus: Bus, last: Cmd) {
    last.waitAck || last.waitPush || (bus.Pcie? && last.waitCfm)
  }

  function Judge(bus: Bus, m: Mgr): Verdict {
    if m.mode.Crashed? then Refused(EPIPE)
    else if m.q == [] then Accepted(false)
    else if m.queueSz == m.maxSz then Refused(ENOMEM)
    else Accepted(Busy(bus, m.q[|m.q| - 1]))
  }

  function Stamped(m: Mgr, r: Request, defer: bool): Cmd {
    Cmd(m.accepted, m.nextTkn, r, defer, true, r.reqCfm, false, EINTR, 0)
  }

  /** The part of queueing done under the lock. */
  function Queued(bus: Bus, m: Mgr, r: Request): Mgr {
    match Judge(bus, m)
    case Refused(_) => m
    case Accepted(defer) =>
      m.(q := m.q + [Stamped(m, r, defer)],
         queueSz := m.queueSz + 1,
         nextTkn := (m.nextTkn + 1) % TKN_MOD,
         accepted := m.accepted + 1)
  }

  /** What the caller of a command that was not deferred does after unlocking. */
  function HandedOver(bus: Bus, m: Mgr, i: nat): Mgr
    requires i < |m.q|
  {
    if !bus.Pcie? && m.q[i].req.callThread then
      m.(q := m.q[i := m.q[i].(waitPush := true)], sem := m.sem + 1)
    else
      m.(pushed := m.pushed + [m.q[i].num])
  }

  /** Clearing WAIT_PUSH and handing command `i` to the firmware. */
  function Pushed(m: Mgr, i: nat): Mgr
    requires i < |m.q|
  {
    m.(q := m.q[i := m.q[i].(waitPush := false)], pushed := m.pushed + [m.q[i].num])
  }

  /** Unlinking command `i`. */
  function Unlinked(m: Mgr, i: nat): Mgr
    requires i < |m.q|
  {
    m.(q := Without(m.q, i), queueSz := m.queueSz - 1)
  }

  // ---------------------------------------------------------------- cmd_mgr_llind

  /** Position of the command the ACK lookup settles on, or the length of the list: it
      is the first one with the token unless a command in WAIT_PUSH comes before it. */
  function AckHit(q: seq<Cmd>, tkn: nat): (a: nat)
    ensures a <= |q|
  {
    var t := FirstTkn(q, tkn);
    if FirstWaitPush(q) < t then |q| else t
  }

  /** Position of the command the ACK releases, or the length of the list. */
  function AckNext(q: seq<Cmd>, tkn: nat): (n: nat)
    ensures n <= |q|
  {
    var a := AckHit(q, tkn);
    if a < |q| then FirstWaitPush(q, a + 1) else FirstWaitPush(q)
  }

  /** State after the ACK of command `i` was handled. */
  function Acked(bus: Bus, m: Mgr, i: nat): (r: Mgr)
    requires i < |m.q|
    ensures r.mode == m.mode && r.maxSz == m.maxSz && r.accepted == m.accepted
  {
    var hit := AckHit(m.q, m.q[i].tkn) < |m.q|;
    var next := AckNext(m.q, m.q[i].tkn);
    var m1 := if hit then m.(q := m.q[i := m.q[i].(waitAck := false)]) else m;
    var closes := hit && m1.q[i].WaitComplete();
    var m2 :=
      if next == |m.q| then m1
      else if !bus.Pcie? then m1.(sem := m1.sem + 1)
      else if closes then Pushed(m1, next)
      else m1;
    if closes then Unlinked(m2, i) else m2
  }

  // ---------------------------------------------------------------- cmd_mgr_msgind

  /** State after a firmware message with identifier `reqid` was handled. */
  function Confirmed(bus: Bus, m: Mgr, reqid: nat, accepts: set<nat>): (r: Mgr)
    ensures r.mode == m.mode && r.maxSz == m.maxSz && r.accepted == m.accepted
  {
    var i := FirstTaker(m.q, reqid, accepts);
    if i == |m.q| then m
    else
      var m1 := m.(q := m.q[i := m.q[i].(waitCfm := false)]);
      if !m1.q[i].WaitComplete() then m1
      else if bus.Pcie? && i + 1 < |m.q| && m.q[i + 1].waitPush then Unlinked(Pushed(m1, i + 1), i)
      else Unlinked(m1, i)
  }

  // ---------------------------------------------------------------- timeout, drain

  function TimedOut(m: Mgr, i: nat): Mgr
    requires i <= |m.q|
  {
    var m1 := m.(mode := Crashed);
    if i < |m.q| then Unlinked(m1, i) else m1
  }

  /** A drained command: removed without being closed; a blocking caller is woken. */
  function DrainedCmd(c: Cmd): Cmd {
    if c.req.nonblock then c else c.(signals := c.signals + 1)
  }

  function Drained(m: Mgr): Mgr {
    m.(mode := Deinit, q := [], queueSz := m.queueSz - |m.q|)
  }
}
