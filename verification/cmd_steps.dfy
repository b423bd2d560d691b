/** What single steps do to the commands, told by their fields: which commands are
    accepted and refused, how an accepted one gets to the firmware, and whose answer an
    ACK or a message is.  All of it holds in every state that can be reached. */
module CmdSteps {
  import opened CmdModel
  import opened CmdProtocol
  import opened CmdOutcomes
  import opened CmdTheorems

  // ---------------------------------------------------------------- acceptance

  /** Some queued command still waits for its ACK. */
  ghost predicate Unacked(q: seq<Cmd>) {
    exists i :: 0 <= i < |q| && q[i].waitAck
  }

  /** A command is refused with -EPIPE exactly when the manager crashed, with -ENOMEM
      exactly when it did not and `maxSz` commands are queued, and accepted otherwise.  It
      then is the last one of the queue and waits for its ACK and, if it asked for one, its
      confirmation.  Refusing changes nothing. */
  lemma SubmitExactly(bus: Bus, maxSz: nat, es: seq<Event>, r: Request)
    requires Possible(bus, maxSz, es)
    ensures
      var s := Reached(bus, maxSz, es);
      var s' := Apply(s, Submit(r));
      && (Judge(bus, s.m) == Refused(-32) <==> s.m.mode.Crashed?)
      && (Judge(bus, s.m) == Refused(-12) <==> !s.m.mode.Crashed? && |s.m.q| == maxSz)
      && (if !s.m.mode.Crashed? && |s.m.q| < maxSz
          then Judge(bus, s.m).Accepted? && Joined(s, s', r, Judge(bus, s.m).defer)
          else Judge(bus, s.m).Refused? && s' == s)
  {
    ReachedInv(bus, maxSz, es);
    NothingLost(bus, maxSz, es);
  }

  /** From `s` to `s'` command `r` was accepted. */
  ghost predicate Joined(s: Sys, s': Sys, r: Request, defer: bool) {
    && s'.m.accepted == s.m.accepted + 1
    && |s'.m.q| == |s.m.q| + 1
    && (forall i :: 0 <= i < |s.m.q| ==> s'.m.q[i] == s.m.q[i])
    && (var c := s'.m.q[|s.m.q|];
        && c.num == s.m.accepted && c.req == r
        && c.waitPush == defer && c.waitAck && c.waitCfm == r.reqCfm
        && !c.done && c.result == -4 && c.signals == 0)
    && s'.callers == (if defer then s.callers else s.callers + {s.m.accepted})
    && s'.m.pushed == s.m.pushed && s'.m.sem == s.m.sem && s'.worker == s.worker
  }

  /** An accepted command is held back exactly when, on PCIe, any command is queued; on SDIO
      and USB, any that waits for its ACK. */
  lemma DeferredExactly(bus: Bus, maxSz: nat, es: seq<Event>)
    requires Possible(bus, maxSz, es)
    requires var s := Reached(bus, maxSz, es); s.m.mode.Inited? && |s.m.q| < maxSz
    ensures
      var s := Reached(bus, maxSz, es);
      Judge(bus, s.m) == Accepted(if bus.Pcie? then s.m.q != [] else Unacked(s.m.q))
  {
    ReachedInv(bus, maxSz, es);
    var s := Reached(bus, maxSz, es);
    if s.m.q != [] {
      assert s.m.q[|s.m.q| - 1].waitAck || (s.m.q[|s.m.q| - 1].waitCfm && !s.m.q[|s.m.q| - 1].waitPush);
    }
  }

  /** On every bus the queue can hold any number of commands up to its bound. */
  lemma {:induction false} FillsUp(bus: Bus, maxSz: nat, r: Request, k: nat) returns (es: seq<Event>)
    requires 0 < maxSz && k <= maxSz
    ensures Possible(bus, maxSz, es)
    ensures var s := Reached(bus, maxSz, es); s.m.mode.Inited? && |s.m.q| == k && s.m.accepted == k
  {
    if k == 0 {
      es := [];
    } else {
      var before := FillsUp(bus, maxSz, r, k - 1);
      es := before + [Submit(r)];
      OneMore(Init(bus, maxSz), before, Submit(r));
      SubmitExactly(bus, maxSz, before, r);
    }
  }

  /** A run followed by one more step. */
  lemma {:induction false} OneMore(s: Sys, es: seq<Event>, e: Event)
    requires Run(s, es) && Enabled(After(s, es), e)
    ensures Run(s, es + [e]) && After(s, es + [e]) == Apply(After(s, es), e)
    decreases |es|
  {
    if es == [] {
      assert ([e])[1..] == [];
    } else {
      assert (es + [e])[1..] == es[1..] + [e];
      OneMore(Apply(s, es[0]), es[1..], e);
    }
  }

  /** Two commands submitted one after the other: the second waits for its push. */
  lemma TwoQueued(bus: Bus, r: Request)
    ensures
      var es := [Submit(r), Submit(r)];
      var s := Reached(bus, 8, es);
      && Possible(bus, 8, es)
      && |s.m.q| == 2 && s.m.q[0].num == 0 && s.m.q[1].num == 1
      && !s.m.q[0].waitPush && s.m.q[1].waitPush && s.callers == {0}
  {
    var e := Submit(r);
    var s0 := Init(bus, 8);
    OneMore(s0, [], e);
    assert [] + [e] == [e];
    OneMore(s0, [e], e);
    assert [e] + [e] == [e, e];
  }

  // ---------------------------------------------------------------- the way to the firmware

  /** A command that was not deferred is pushed by its caller; on SDIO and USB one that asks
      for it is left to the worker, which is signalled once. */
  lemma CallerExactly(bus: Bus, maxSz: nat, es: seq<Event>, n: nat)
    requires Possible(bus, maxSz, es) && Enabled(Reached(bus, maxSz, es), CallerPush(n))
    ensures
      var s := Reached(bus, maxSz, es);
      var s' := Apply(s, CallerPush(n));
      InQueue(s.m.q, n) && InQueue(s'.m.q, n) &&
      var c, c' := s.m.q[IndexOf(s.m.q, n)], s'.m.q[IndexOf(s'.m.q, n)];
      if c.req.callThread && (bus.Sdio? || bus.Usb?)
      then c'.waitPush && s'.m.sem == s.m.sem + 1 && s'.m.pushed == s.m.pushed
      else !c'.waitPush && s'.m.sem == s.m.sem && s'.m.pushed == s.m.pushed + [n]
  {
    ReachedInv(bus, maxSz, es);
    var s := Reached(bus, maxSz, es);
    CallersTurn(s, n);
    IndexUnique(HandedOver(bus, s.m, IndexOf(s.m.q, n)).q, IndexOf(s.m.q, n));
  }

  /** A caller that has not pushed yet has its command queued. */
  lemma CallersTurn(s: Sys, n: nat)
    requires InvUp(s) && Counted(s.m) && n in s.callers
    ensures InQueue(s.m.q, n)
    ensures !s.m.q[IndexOf(s.m.q, n)].waitPush
  {
    var k := if s.bus.Pcie? then 0 else FirstUnacked(s.m.q);
    IndexUnique(s.m.q, k);
  }

  // ---------------------------------------------------------------- answers

  /** An ACK is for a command in flight and is taken by that command, which is settled if it
      waits for no confirmation.  The next command is let go: on SDIO and USB by signalling the
      worker, on PCIe by pushing it, and there only if the first one was settled. */
  lemma AckExactly(bus: Bus, maxSz: nat, es: seq<Event>, n: nat)
    requires Possible(bus, maxSz, es)
    requires var s := Reached(bus, maxSz, es); s.m.mode.Inited? && Enabled(s, Ack(n))
    ensures
      var s := Reached(bus, maxSz, es);
      var s' := Apply(s, Ack(n));
      var i := IndexOf(s.m.q, n);
      var c := s.m.q[i].(waitAck := false);
      && s'.ackSeen == s.ackSeen + {n}
      && (if c.waitCfm then Edited(s.m.q, s'.m.q, i, c) && s'.gone == s.gone
          else Cut(s.m.q, s'.m.q, i) && s'.gone == s.gone[n := c.Closed()])
      && s'.m.sem == (if !bus.Pcie? && i + 1 < |s.m.q| then 1 else 0)
      && s'.m.pushed == if bus.Pcie? && !c.waitCfm && |s.m.q| > 1 then s.m.pushed + [s.m.q[1].num] else s.m.pushed
  {
    ReachedInv(bus, maxSz, es);
    var s := Reached(bus, maxSz, es);
    AckTarget(s, n);
    AckShape(s, n);
    AckReleases(s, IndexOf(s.m.q, n));
  }

  lemma AckShape(s: Sys, n: nat)
    requires Counted(s.m) && InvUp(s) && InQueue(s.m.q, n) && PhaseOf(s).InFlight?
    requires IndexOf(s.m.q, n) == if s.bus.Pcie? then 0 else FirstUnacked(s.m.q)
    ensures
      var s' := Apply(s, Ack(n));
      var i := IndexOf(s.m.q, n);
      var c := s.m.q[i].(waitAck := false);
      && s'.m == Acked(s.bus, s.m, i) && s'.ackSeen == s.ackSeen + {n}
      && if c.waitCfm then Edited(s.m.q, s'.m.q, i, c) && s'.gone == s.gone
         else Cut(s.m.q, s'.m.q, i) && s'.gone == s.gone[n := c.Closed()]
  {
    var i := IndexOf(s.m.q, n);
    AckedShape(s.bus, s.m, i);
    if s.bus.Pcie? { AckedPcie(s.bus, s.m); } else { AckedThreaded(s.bus, s.m, i); }
  }

  lemma AckReleases(s: Sys, i: nat)
    requires InvUp(s) && i < |s.m.q| && i == (if s.bus.Pcie? then 0 else FirstUnacked(s.m.q)) && PhaseOf(s).InFlight?
    ensures
      var m' := Acked(s.bus, s.m, i);
      && m'.sem == (if !s.bus.Pcie? && i + 1 < |s.m.q| then 1 else 0)
      && m'.pushed ==
           if s.bus.Pcie? && !s.m.q[i].waitCfm && |s.m.q| > 1 then s.m.pushed + [s.m.q[1].num] else s.m.pushed
  {
    if s.bus.Pcie? { AckedPcie(s.bus, s.m); } else { AckedThreaded(s.bus, s.m, i); }
  }

  /** Command `c` waits for message `id`, and its callback accepts. */
  ghost predicate Wants(c: Cmd, id: nat, accepts: set<nat>) {
    c.waitCfm && c.req.reqid == id && c.num in accepts
  }

  /** A message is taken by the first queued command that waits for a message with its
      identifier and accepts it: that one, and only that one, stops waiting for its
      confirmation, and is settled if it had its ACK.  Without such a command nothing
      changes. */
  lemma MessageExactly(bus: Bus, maxSz: nat, es: seq<Event>, id: nat, accepts: set<nat>) returns (i: nat)
    requires Possible(bus, maxSz, es)
    ensures i <= |Reached(bus, maxSz, es).m.q|
    ensures
      var s := Reached(bus, maxSz, es);
      var s' := Apply(s, Message(id, accepts));
      && (forall j :: 0 <= j < i ==> !Wants(s.m.q[j], id, accepts))
      && if i == |s.m.q| then s' == s
         else
           && Wants(s.m.q[i], id, accepts)
           && s'.cfmSeen == s.cfmSeen[s.m.q[i].num := id]
           && if s.m.q[i].waitAck
              then Edited(s.m.q, s'.m.q, i, s.m.q[i].(waitCfm := false)) && s'.gone == s.gone
              else Cut(s.m.q, s'.m.q, i) && s'.gone == s.gone[s.m.q[i].num := s.m.q[i].(waitCfm := false).Closed()]
  {
    ReachedInv(bus, maxSz, es);
    var s := Reached(bus, maxSz, es);
    i := FirstTaker(s.m.q, id, accepts);
    if i < |s.m.q| { ConfirmedShape(bus, s.m, id, accepts); }
  }

  /** A command that was not edited is found again under its number. */
  lemma FoundAgain(q: seq<Cmd>, q': seq<Cmd>, i: nat, c: Cmd, j: nat)
    requires i < |q| && j < |q| && i != j
    requires (Edited(q, q', i, c) && c.num == q[i].num) || Cut(q, q', i)
    requires forall k, l :: 0 <= k < l < |q| ==> q[k].num < q[l].num
    ensures InQueue(q', q[j].num) && Near(q[j], q'[IndexOf(q', q[j].num)])
  {
    var at := if |q'| < |q| && i < j then j - 1 else j;
    assert Near(q[j], q'[at]);
    Present(q', at);
    var k := IndexOf(q', q[j].num);
    assert q'[k].num == q[j].num;
    var was := if |q'| < |q| && i <= k then k + 1 else k;
    assert q[was].num == q[j].num;
  }

  /** A command stops waiting for its confirmation only by a message with the identifier
      it asked for. */
  lemma OwnMessageOnly(bus: Bus, maxSz: nat, es: seq<Event>, id: nat, accepts: set<nat>, j: nat)
    requires Possible(bus, maxSz, es) && j < |Reached(bus, maxSz, es).m.q|
    requires var c := Reached(bus, maxSz, es).m.q[j]; c.waitCfm && c.req.reqid != id
    ensures
      var s' := Apply(Reached(bus, maxSz, es), Message(id, accepts));
      var c := Reached(bus, maxSz, es).m.q[j];
      InQueue(s'.m.q, c.num) && Near(c, s'.m.q[IndexOf(s'.m.q, c.num)])
  {
    var i := MessageExactly(bus, maxSz, es, id, accepts);
    ReachedInv(bus, maxSz, es);
    var q := Reached(bus, maxSz, es).m.q;
    if i < |q| {
      var c := q[i].(waitCfm := false);
      FoundAgain(q, Apply(Reached(bus, maxSz, es), Message(id, accepts)).m.q, i, c, j);
    } else {
      IndexUnique(q, j);
    }
  }

  /** What the ledgers say was seen did happen in the run. */
  lemma {:induction false} SeenInRun(s: Sys, es: seq<Event>, n: nat)
    requires Run(s, es)
    ensures n in After(s, es).ackSeen ==> n in s.ackSeen || Ack(n) in es
    ensures n in After(s, es).cfmSeen ==>
      || (n in s.cfmSeen && s.cfmSeen[n] == After(s, es).cfmSeen[n])
      || Sent(es, After(s, es).cfmSeen[n], n)
    decreases |es|
  {
    if es != [] {
      SeenInRun(Apply(s, es[0]), es[1..], n);
      SeenStep(s, es[0], n);
      assert es == [es[0]] + es[1..];
      if n in After(s, es).cfmSeen && Sent(es[1..], After(s, es).cfmSeen[n], n) {
        SentLater(es, After(s, es).cfmSeen[n], n);
      }
    }
  }

  /** The run holds a message with that identifier which command `n` accepts. */
  ghost predicate Sent(es: seq<Event>, id: nat, n: nat) {
    exists k :: 0 <= k < |es| && es[k].Message? && es[k].reqid == id && n in es[k].accepts
  }

  lemma SentLater(es: seq<Event>, id: nat, n: nat)
    requires es != [] && Sent(es[1..], id, n)
    ensures Sent(es, id, n)
  {
    var k :| 0 <= k < |es[1..]| && es[1..][k].Message? && es[1..][k].reqid == id && n in es[1..][k].accepts;
    assert es[k + 1] == es[1..][k];
  }

  lemma SeenStep(s: Sys, e: Event, n: nat)
    requires Enabled(s, e)
    ensures n in Apply(s, e).ackSeen ==> n in s.ackSeen || e == Ack(n)
    ensures n in Apply(s, e).cfmSeen ==>
      || (n in s.cfmSeen && s.cfmSeen[n] == Apply(s, e).cfmSeen[n])
      || (e.Message? && e.reqid == Apply(s, e).cfmSeen[n] && n in e.accepts)
  {
    match e
    case Ack(_) => assert Apply(s, e).ackSeen <= s.ackSeen + {e.num};
    case Message(id, accepts) => TakenBy(s, id, accepts, n);
    case _ =>
  }

  lemma TakenBy(s: Sys, id: nat, accepts: set<nat>, n: nat)
    ensures
      var s' := Apply(s, Message(id, accepts));
      && s'.ackSeen == s.ackSeen
      && (n in s'.cfmSeen ==>
            (n in s.cfmSeen && s.cfmSeen[n] == s'.cfmSeen[n]) || (s'.cfmSeen[n] == id && n in accepts))
  {
  }

  /** A blocking command gets result 0 only if the run holds its ACK and, where it asked for
      a confirmation, a message with the identifier it asked for that it accepted. */
  lemma OwnAnswers(bus: Bus, maxSz: nat, es: seq<Event>, n: nat)
    requires Possible(bus, maxSz, es)
    requires n in Reached(bus, maxSz, es).gone
    requires var c := Reached(bus, maxSz, es).gone[n]; !c.req.nonblock && c.result == 0
    ensures
      var c := Reached(bus, maxSz, es).gone[n];
      Ack(n) in es && (c.req.reqCfm ==> Sent(es, c.req.reqid, n))
  {
    BlockingOutcome(bus, maxSz, es, n);
    SeenInRun(Init(bus, maxSz), es, n);
  }

  // ---------------------------------------------------------------- giving up

  /** A caller that waits can time out at any moment: the manager crashes, and the command, if it
      is still queued, is settled with -ETIMEDOUT; nobody is woken. */
  lemma TimeoutExactly(bus: Bus, maxSz: nat, es: seq<Event>, i: nat)
    requires Possible(bus, maxSz, es) && i < |Reached(bus, maxSz, es).m.q|
    requires var s := Reached(bus, maxSz, es); !s.m.q[i].req.nonblock && s.m.q[i].num !in s.callers
    ensures
      var s := Reached(bus, maxSz, es);
      var c := s.m.q[i];
      var s' := Apply(s, Timeout(c.num));
      && Enabled(s, Timeout(c.num)) && s'.m.mode.Crashed? && Cut(s.m.q, s'.m.q, i)
      && s'.gone == s.gone[c.num := c.(result := -110, done := true)]
  {
    ReachedInv(bus, maxSz, es);
    NothingLost(bus, maxSz, es);
    var s := Reached(bus, maxSz, es);
    IndexUnique(s.m.q, i);
    assert Open(s, s.m.q[i]);
    TimeoutShape(s.m, i);
  }

  /** A manager that is up or crashed can be drained at any moment: every queued command is
      settled as it is, and every blocking one signalled once. */
  lemma DrainExactly(bus: Bus, maxSz: nat, es: seq<Event>, i: nat)
    requires Possible(bus, maxSz, es) && i < |Reached(bus, maxSz, es).m.q|
    ensures
      var s := Reached(bus, maxSz, es);
      var s' := Apply(s, Drain);
      && Enabled(s, Drain) && s'.m.q == [] && s'.m.queueSz == 0
      && s.m.q[i].num in s'.gone
      && s'.gone[s.m.q[i].num] == s.m.q[i].(signals := if s.m.q[i].req.nonblock then 0 else 1)
  {
    ReachedInv(bus, maxSz, es);
    NothingLost(bus, maxSz, es);
    var s := Reached(bus, maxSz, es);
    IndexUnique(s.m.q, i);
    assert Open(s, s.m.q[i]);
  }

  // ---------------------------------------------------------------- runs

  /** The first command of a manager, acknowledged. */
  lemma FirstAcked(bus: Bus, r: Request)
    requires r.reqCfm && !r.callThread
    ensures
      var es := [Submit(r), CallerPush(0), Ack(0)];
      var s := Reached(bus, 8, es);
      && Possible(bus, 8, es) && s.m.mode.Inited?
      && s.m.q == [Cmd(0, 0, r, false, false, true, false, -4, 0)] && s.gone == map[]
  {
    var e0, e1, e2 := Submit(r), CallerPush(0), Ack(0);
    var s0 := Init(bus, 8);
    var s2 := Apply(Apply(s0, e0), e1);
    OneMore(s0, [], e0);
    assert [] + [e0] == [e0];
    OneMore(s0, [e0], e1);
    assert [e0] + [e1] == [e0, e1];
    assert s2.m.pushed[0] == 0;
    OneMore(s0, [e0, e1], e2);
    assert [e0, e1] + [e2] == [e0, e1, e2];
  }

  /** A message with another identifier leaves that command waiting; its own, accepted, ends
      it with result 0. */
  lemma StrayMessage(bus: Bus)
    ensures
      var r := Request(7, false, true, false);
      var s := Reached(bus, 8, [Submit(r), CallerPush(0), Ack(0)]);
      && Possible(bus, 8, [Submit(r), CallerPush(0), Ack(0)])
      && Apply(s, Message(9, {0})) == s && |s.m.q| == 1 && s.m.q[0].waitCfm
      && Apply(s, Message(7, {})) == s
      && (var s' := Apply(s, Message(7, {0}));
          s'.m.q == [] && 0 in s'.gone && s'.gone[0].result == 0 && s'.gone[0].signals == 1)
  {
    FirstAcked(bus, Request(7, false, true, false));
  }
}
