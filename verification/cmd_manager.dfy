/** The command manager itself: commands are objects whose flags the handlers change in
    place, and the manager keeps them on a list.  `Shows(m)` says that the manager's
    present state is the value `m`; each handler is proved to go from any value to the one
    that CmdModel gives for it. */
module CmdManager {
  import opened CmdModel

  class AmlCmd {
    const req: Request
    ghost var num: nat      // order of acceptance
    var tkn: nat
    var waitPush: bool
    var waitAck: bool
    var waitCfm: bool
    var done: bool
    var result: int
    var completion: nat

    constructor (r: Request)
      ensures req == r && Untouched()
    {
      req := r;
      num, tkn := 0, 0;
      waitPush, waitAck, waitCfm, done := false, false, false, false;
      result, completion := EINTR, 0;
    }

    ghost predicate Untouched()
      reads this
    {
      !waitPush && !waitAck && !waitCfm && !done && completion == 0
    }

    ghost function View(): Cmd
      reads this
    {
      Cmd(num, tkn, req, waitPush, waitAck, waitCfm, done, result, completion)
    }
  }

  /** The commands on `list` have the values `q`. */
  ghost predicate Reads(list: seq<AmlCmd>, q: seq<Cmd>)
    reads list
  {
    |list| == |q| && forall i :: 0 <= i < |list| ==> list[i].View() == q[i]
  }

  ghost predicate NoDup(list: seq<AmlCmd>) {
    forall i, j :: 0 <= i < j < |list| ==> list[i] != list[j]
  }

  class CmdMgr {
    const bus: Bus
    var state: Mode
    var nextTkn: nat
    var queueSz: int
    var maxQueueSz: nat
    var cmds: seq<AmlCmd>
    var msgSem: nat
    ghost var pushed: seq<nat>
    ghost var accepted: nat

    ghost predicate Shows(m: Mgr)
      reads this, cmds
    {
      && m == Mgr(state, nextTkn, queueSz, maxQueueSz, m.q, msgSem, pushed, accepted)
      && Reads(cmds, m.q) && NoDup(cmds)
    }

    constructor (bus: Bus, maxQueued: nat)
      ensures this.bus == bus && Shows(Fresh(maxQueued))
    {
      this.bus := bus;
      state, nextTkn, queueSz, maxQueueSz := Inited, 0, 0, maxQueued;
      cmds, msgSem := [], 0;
      pushed, accepted := [], 0;
    }

    /** aml_ipc_msg_push */
    method Push(cmd: AmlCmd)
      modifies this`pushed
      ensures pushed == old(pushed) + [cmd.num]
    {
      pushed := pushed + [cmd.num];
    }

    /** cmd_complete: unlinks command `at` and closes it. */
    method Complete(ghost q: seq<Cmd>, ghost at: nat, cmd: AmlCmd)
      requires Reads(cmds, q) && NoDup(cmds) && at < |cmds| && cmds[at] == cmd
      modifies this`cmds, this`queueSz, cmd`done, cmd`result, cmd`completion
      ensures cmds == Without(old(cmds), at) && queueSz == old(queueSz) - 1
      ensures cmd.View() == q[at].Closed()
    {
      assert cmd.View() == q[at];
      var i := 0;
      while cmds[i] != cmd
        invariant 0 <= i <= at
        decreases at - i
      {
        i := i + 1;
      }
      assert i == at;
      cmds := cmds[..i] + cmds[i + 1..];
      queueSz := queueSz - 1;
      cmd.done := true;
      if !cmd.req.nonblock {
        if !cmd.waitAck && !cmd.waitCfm {
          cmd.result := 0;
          cmd.completion := cmd.completion + 1;
        }
      }
    }

    /** cmd_mgr_queue, the section under the lock. */
    method Queue(ghost m: Mgr, cmd: AmlCmd) returns (ret: int, deferPush: bool)
      requires Shows(m) && cmd !in cmds && cmd.Untouched()
      modifies this`cmds, this`queueSz, this`nextTkn, this`accepted, cmd
      ensures Shows(Queued(bus, m, cmd.req))
      ensures
        match Judge(bus, m)
        case Refused(e) => ret == e && cmd.result == e && !deferPush && cmds == old(cmds)
        case Accepted(d) => ret == 0 && deferPush == d && cmds == old(cmds) + [cmd]
      ensures ret == -32 <==> old(state) == Crashed
      ensures ret == -12 <==> old(state) != Crashed && old(cmds) != [] && old(queueSz) == maxQueueSz
      ensures if ret in {-32, -12} then cmds == old(cmds) else ret == 0 && cmds == old(cmds) + [cmd]
    {
      deferPush := false;
      if state == Crashed {
        cmd.result := EPIPE;
        return EPIPE, false;
      }
      if cmds != [] {
        if queueSz == maxQueueSz {
          cmd.result := ENOMEM;
          return ENOMEM, false;
        }
        var last := cmds[|cmds| - 1];
        assert last.View() == m.q[|m.q| - 1];
        if last.waitAck || last.waitPush || (bus == Pcie && last.waitCfm) {
          cmd.waitPush := true;
          deferPush := true;
        }
      }
      assert Judge(bus, m) == Accepted(deferPush);
      Append(m, cmd, deferPush);
      ret := 0;
    }

    /** The end of that section, for a command accepted. */
    method Append(ghost m: Mgr, cmd: AmlCmd, ghost deferPush: bool)
      requires Shows(m) && cmd !in cmds && Judge(bus, m) == Accepted(deferPush)
      requires cmd.waitPush == deferPush && !cmd.waitCfm && !cmd.done && cmd.completion == 0
      modifies this`cmds, this`queueSz, this`nextTkn, this`accepted, cmd
      ensures Shows(Queued(bus, m, cmd.req)) && cmds == old(cmds) + [cmd]
    {
      ghost var c := Stamped(m, cmd.req, deferPush);
      Stamp(cmd);
      nextTkn := (nextTkn + 1) % TKN_MOD;
      accepted := accepted + 1;
      cmds := cmds + [cmd];
      queueSz := queueSz + 1;
      assert cmd.View() == c;
      assert Reads(cmds, m.q + [c]);
    }

    /** What cmd_mgr_queue writes into an accepted command. */
    method Stamp(cmd: AmlCmd)
      modifies cmd
      ensures cmd.View() ==
        old(cmd.View()).(num := accepted, tkn := nextTkn, waitAck := true, result := EINTR,
          waitCfm := cmd.req.reqCfm || old(cmd.waitCfm),
          signals := if cmd.req.nonblock then old(cmd.completion) else 0)
    {
      cmd.waitAck := true;
      if cmd.req.reqCfm {
        cmd.waitCfm := true;
      }
      cmd.tkn := nextTkn;
      cmd.result := EINTR;
      if !cmd.req.nonblock {
        cmd.completion := 0;
      }
      cmd.num := accepted;
    }

    /** cmd_mgr_queue, what follows the lock for a command that was not deferred. */
    method HandOver(ghost m: Mgr, ghost at: nat, cmd: AmlCmd)
      requires Shows(m) && at < |cmds| && cmds[at] == cmd
      modifies this`msgSem, this`pushed, cmd`waitPush
      ensures Shows(HandedOver(bus, m, at)) && cmds == old(cmds)
    {
      assert cmd.View() == m.q[at];
      if bus != Pcie && cmd.req.callThread {
        cmd.waitPush := true;
        msgSem := msgSem + 1;
      } else {
        Push(cmd);
      }
    }

    /** Clears WAIT_PUSH and hands the command to the firmware. */
    method Release(ghost list: seq<AmlCmd>, ghost q: seq<Cmd>, ghost at: nat, next: AmlCmd)
      requires Reads(list, q) && NoDup(list) && at < |list| && list[at] == next
      modifies this`pushed, next`waitPush
      ensures pushed == old(pushed) + [q[at].num]
      ensures Reads(list, q[at := q[at].(waitPush := false)])
    {
      assert next.View() == q[at];
      next.waitPush := false;
      Push(next);
    }

    /** The list walk of cmd_mgr_llind. */
    method AckWalk(ghost q: seq<Cmd>, tkn: nat) returns (acked: AmlCmd?, next: AmlCmd?)
      requires Reads(cmds, q)
      ensures acked == null <==> AckHit(q, tkn) == |q|
      ensures acked != null ==> acked == cmds[AckHit(q, tkn)]
      ensures next == null <==> AckNext(q, tkn) == |q|
      ensures next != null ==> next == cmds[AckNext(q, tkn)]
    {
      acked, next := null, null;
      ghost var hit := 0;
      var i := 0;
      while i < |cmds|
        invariant 0 <= i <= |cmds| && next == null
        invariant acked == null ==> forall j :: 0 <= j < i ==> q[j].tkn != tkn && !q[j].waitPush
        invariant acked != null ==>
          && 0 <= hit < i && acked == cmds[hit] && q[hit].tkn == tkn
          && (forall j :: 0 <= j < hit ==> q[j].tkn != tkn && !q[j].waitPush)
          && (forall j :: hit < j < i ==> !q[j].waitPush)
      {
        var cur := cmds[i];
        assert cur.View() == q[i];
        if acked == null && cur.tkn == tkn {
          acked, hit := cur, i;
        } else if cur.waitPush {
          next := cur;
          break;
        }
        i := i + 1;
      }
      WalkEnds(q, tkn, i, if acked == null then i else hit);
    }

    /** Clears WAIT_ACK; closes the command if it waits for nothing else. */
    method TakeAck(ghost q: seq<Cmd>, ghost at: nat, cmd: AmlCmd) returns (closes: bool)
      requires Reads(cmds, q) && NoDup(cmds) && at < |cmds| && cmds[at] == cmd
      modifies this`cmds, this`queueSz, cmd`waitAck, cmd`done, cmd`result, cmd`completion
      ensures closes == !q[at].waitCfm
      ensures Reads(old(cmds), q[at := Answered(q[at].(waitAck := false))])
      ensures cmds == if closes then Without(old(cmds), at) else old(cmds)
      ensures queueSz == if closes then old(queueSz) - 1 else old(queueSz)
    {
      assert cmd.View() == q[at];
      closes := false;
      cmd.waitAck := false;
      if !cmd.waitAck && !cmd.waitCfm {
        closes := true;
        Complete(q[at := q[at].(waitAck := false)], at, cmd);
      }
    }

    /** The end of cmd_mgr_llind: lets the next command go, through the worker or, if the
        acknowledged one was closed, at once. */
    method LetGo(ghost list: seq<AmlCmd>, ghost q: seq<Cmd>, ghost n: nat, next: AmlCmd?, deferPush: bool)
      returns (ghost q': seq<Cmd>)
      requires Reads(list, q) && NoDup(list) && n <= |list|
      requires if next == null then n == |list| else n < |list| && list[n] == next
      modifies this`msgSem, this`pushed, list`waitPush
      ensures
        var now := bus.Pcie? && !deferPush && n < |q|;
        && q' == (if now then q[n := q[n].(waitPush := false)] else q)
        && Reads(list, q')
        && pushed == (if now then old(pushed) + [q[n].num] else old(pushed))
        && msgSem == if !bus.Pcie? && n < |q| then old(msgSem) + 1 else old(msgSem)
    {
      q' := q;
      if next != null {
        if bus != Pcie {
          msgSem := msgSem + 1;
        } else if !deferPush {
          Release(list, q, n, next);
          q' := q[n := q[n].(waitPush := false)];
        }
      }
    }

    /** The walk of cmd_mgr_llind and what it does to the acknowledged command. */
    method AckFirst(ghost q: seq<Cmd>, ghost at: nat, cmd: AmlCmd)
      returns (next: AmlCmd?, deferPush: bool, ghost q': seq<Cmd>)
      requires Reads(cmds, q) && NoDup(cmds) && at < |cmds| && cmds[at] == cmd
      modifies this`cmds, this`queueSz, cmd`waitAck, cmd`done, cmd`result, cmd`completion
      ensures
        var hit := AckHit(q, q[at].tkn) < |q|;
        var n := AckNext(q, q[at].tkn);
        && deferPush == !(hit && !q[at].waitCfm)
        && q' == (if hit then q[at := Answered(q[at].(waitAck := false))] else q)
        && Reads(old(cmds), q')
        && cmds == (if deferPush then old(cmds) else Without(old(cmds), at))
        && queueSz == (if deferPush then old(queueSz) else old(queueSz) - 1)
        && if next == null then n == |q| else n < |q| && old(cmds)[n] == next
    {
      assert cmd.View() == q[at];
      deferPush := true;
      q' := q;
      var acked;
      acked, next := AckWalk(q, cmd.tkn);
      if acked != null {
        var closes := TakeAck(q, at, cmd);
        q' := q[at := Answered(q[at].(waitAck := false))];
        deferPush := !closes;
      }
    }

    /** cmd_mgr_llind: the ACK of `cmd`. */
    method LlInd(ghost m: Mgr, ghost at: nat, cmd: AmlCmd)
      requires Shows(m) && at < |cmds| && cmds[at] == cmd
      modifies this, cmds`waitPush, cmd
      ensures Shows(Acked(bus, m, at))
      ensures |cmds| < |m.q| ==> cmds == Without(old(cmds), at)
      ensures |cmds| < |m.q| && !m.q[at].waitPush ==> cmd.View() == m.q[at].(waitAck := false).Closed()
    {
      ghost var list := cmds;
      ghost var closes, q := AckSteps(m, at, cmd);
      if closes {
        ReadsWithout(list, q, at);
      }
      assert list[at].View() == q[at];
    }

    /** The statements of cmd_mgr_llind; `q` are the values of the commands that were on the
        list, the closed one included. */
    method AckSteps(ghost m: Mgr, ghost at: nat, cmd: AmlCmd) returns (ghost closes: bool, ghost q: seq<Cmd>)
      requires Shows(m) && at < |cmds| && cmds[at] == cmd
      modifies this`cmds, this`queueSz, this`msgSem, this`pushed, cmds`waitPush, cmd
      ensures Reads(old(cmds), q)
      ensures cmds == if closes then Without(old(cmds), at) else old(cmds)
      ensures closes && !m.q[at].waitPush ==> q[at] == m.q[at].(waitAck := false).Closed()
      ensures Acked(bus, m, at) ==
        m.(q := if closes then Without(q, at) else q, queueSz := queueSz, sem := msgSem, pushed := pushed)
    {
      ghost var list, n := cmds, AckNext(m.q, m.q[at].tkn);
      var next, deferPush, q1 := AckFirst(m.q, at, cmd);
      q := LetGo(list, q1, n, next, deferPush);
      closes := !deferPush;
      AckedIs(bus, m, at, deferPush, q1, q, queueSz, msgSem, pushed);
    }

    /** cmd_mgr_msgind: a firmware message; `takes` are the commands whose callback returns 0. */
    method MsgInd(ghost m: Mgr, ghost accepts: set<nat>, reqid: nat, takes: set<AmlCmd>) returns (found: bool)
      requires Shows(m)
      requires forall c :: c in cmds ==> (c in takes <==> c.num in accepts)
      modifies this, cmds
      ensures Shows(Confirmed(bus, m, reqid, accepts))
      ensures found <==> FirstTaker(m.q, reqid, accepts) < |m.q|
      ensures found <==> exists c :: c in old(cmds) && c.req.reqid == reqid && old(c.waitCfm) && c in takes
      ensures forall c :: c in old(cmds) && c.req.reqid != reqid ==> c.waitCfm == old(c.waitCfm)
      ensures
        var i := FirstTaker(m.q, reqid, accepts);
        |cmds| < |m.q| ==>
          && found && cmds == Without(old(cmds), i)
          && old(cmds)[i].View() == m.q[i].(waitCfm := false).Closed()
    {
      found := false;
      var i := 0;
      while i < |cmds|
        invariant 0 <= i <= |cmds|
        invariant forall j :: 0 <= j < i ==> !Takes(m.q[j], reqid, accepts)
      {
        var cmd := cmds[i];
        assert cmd.View() == m.q[i];
        if cmd.req.reqid == reqid && cmd.waitCfm {
          if cmd in takes {
            found := true;
            TakerIs(m.q, reqid, accepts, i);
            TakeCfm(m, reqid, accepts, i, cmd);
            return;
          }
        }
        i := i + 1;
      }
      TakerIs(m.q, reqid, accepts, i);
    }

    /** cmd_mgr_msgind, from where the command taking the confirmation is known. */
    method TakeCfm(ghost m: Mgr, reqid: nat, ghost accepts: set<nat>, i: nat, cmd: AmlCmd)
      requires Shows(m) && i < |cmds| && cmds[i] == cmd && FirstTaker(m.q, reqid, accepts) == i
      modifies this, cmds`waitPush, cmd
      ensures Shows(Confirmed(bus, m, reqid, accepts))
      ensures |cmds| < |m.q| ==> cmds == Without(old(cmds), i) && cmd.View() == m.q[i].(waitCfm := false).Closed()
    {
      ghost var list, q := cmds, m.q[i := Answered(m.q[i].(waitCfm := false))];
      var next: AmlCmd? := null;
      if !cmd.waitAck && i + 1 < |cmds| {
        next := cmds[i + 1];
      }
      TakeAnswer(m.q, i, cmd);
      if bus == Pcie {
        if next != null && next.waitPush {
          Release(list, q, i + 1, next);
          q := q[i + 1 := q[i + 1].(waitPush := false)];
        }
      }
      ReadsWithout(list, q, i);
      ghost var r := m.(q := if |cmds| < |list| then Without(q, i) else q, queueSz := queueSz, pushed := pushed);
      assert Shows(r);
      assert Confirmed(bus, m, reqid, accepts) == r by { ConfirmedValue(bus, m, reqid, accepts, i); }
      assert list[i].View() == q[i];
    }

    /** Clears WAIT_CFM; closes the command if it waits for nothing else. */
    method TakeAnswer(ghost q: seq<Cmd>, ghost at: nat, cmd: AmlCmd)
      requires Reads(cmds, q) && NoDup(cmds) && at < |cmds| && cmds[at] == cmd
      modifies this`cmds, this`queueSz, cmd`waitCfm, cmd`done, cmd`result, cmd`completion
      ensures Reads(old(cmds), q[at := Answered(q[at].(waitCfm := false))])
      ensures cmds == if q[at].waitAck then old(cmds) else Without(old(cmds), at)
      ensures queueSz == if q[at].waitAck then old(queueSz) else old(queueSz) - 1
    {
      assert cmd.View() == q[at];
      cmd.waitCfm := false;
      if !cmd.waitAck && !cmd.waitCfm {
        Complete(q[at := q[at].(waitCfm := false)], at, cmd);
      }
    }

    /** aml_msg_task, the list walk: the first command in WAIT_PUSH; null stands for the
        list head, which the walk would return as if it were a command. */
    method FindPushable(ghost m: Mgr) returns (cmd: AmlCmd?)
      requires Shows(m)
      ensures cmd == null <==> FirstWaitPush(m.q) == |m.q|
      ensures cmd != null ==> cmd == cmds[FirstWaitPush(m.q)]
    {
      cmd := null;
      var i := 0;
      while i < |cmds|
        invariant 0 <= i <= |cmds| && cmd == null
        invariant forall j :: 0 <= j < i ==> !m.q[j].waitPush
      {
        var cur := cmds[i];
        assert cur.View() == m.q[i];
        if cur.waitPush {
          cmd := cur;
          break;
        }
        i := i + 1;
      }
      PushableIs(m.q, i);
    }

    /** aml_msg_task, what follows the walk. */
    method PushFound(ghost m: Mgr, ghost at: nat, cmd: AmlCmd)
      requires Shows(m) && at < |cmds| && cmds[at] == cmd
      modifies this`pushed, cmd
      ensures Shows(Pushed(m, at)) && cmds == old(cmds)
    {
      Release(cmds, m.q, at, cmd);
    }

    /** The timeout branch of cmd_mgr_queue, for a command still on the list or not. */
    method TimeOut(ghost m: Mgr, ghost at: nat, cmd: AmlCmd)
      requires Shows(m) && at <= |cmds|
      requires if at < |cmds| then cmds[at] == cmd && !cmd.done else cmd !in cmds && cmd.done
      modifies this, cmd
      ensures Shows(TimedOut(m, at))
      ensures at < |m.q| ==> cmd.View() == m.q[at].(result := ETIMEDOUT).Closed()
      ensures at == |m.q| ==> cmd.View() == old(cmd.View())
    {
      state := Crashed;
      if !cmd.done {
        ghost var list := cmds;
        assert cmd.View() == m.q[at];
        cmd.result := ETIMEDOUT;
        ghost var q := m.q[at := m.q[at].(result := ETIMEDOUT)];
        Complete(q, at, cmd);
        ReadsWithout(list, q[at := q[at].Closed()], at);
      }
    }

    /** cmd_mgr_drain, as called on deinitialisation: every command is unlinked, and every
        blocking one signalled once and otherwise left as it was. */
    method Drain(ghost m: Mgr)
      requires Shows(m)
      modifies this, cmds
      ensures Shows(Drained(m)) && cmds == []
      ensures forall i :: 0 <= i < |m.q| ==> old(cmds)[i].View() == DrainedCmd(m.q[i])
    {
      state := Deinit;
      ghost var list, k := cmds, 0;
      while cmds != []
        invariant 0 <= k <= |list| && cmds == list[k..] && queueSz == m.queueSz - k
        invariant state == Deinit && nextTkn == m.nextTkn && maxQueueSz == m.maxSz
        invariant msgSem == m.sem && pushed == m.pushed && accepted == m.accepted
        invariant forall i :: 0 <= i < k ==> list[i].View() == DrainedCmd(m.q[i])
        invariant forall i :: k <= i < |list| ==> list[i].View() == m.q[i]
        decreases |cmds|
      {
        var cur := cmds[0];
        assert cur == list[k] && cur.View() == m.q[k];
        cmds := cmds[1..];
        queueSz := queueSz - 1;
        if !cur.req.nonblock {
          cur.completion := cur.completion + 1;
        }
        k := k + 1;
      }
    }
  }

  /** The effect of a confirmation, from the position of the command that takes it. */
  lemma ConfirmedValue(bus: Bus, m: Mgr, reqid: nat, accepts: set<nat>, i: nat)
    requires i < |m.q| && i == FirstTaker(m.q, reqid, accepts)
    ensures
      var closes := !m.q[i].waitAck;
      var now := bus.Pcie? && closes && i + 1 < |m.q| && m.q[i + 1].waitPush;
      var q1 := m.q[i := Answered(m.q[i].(waitCfm := false))];
      var q2 := if now then q1[i + 1 := q1[i + 1].(waitPush := false)] else q1;
      Confirmed(bus, m, reqid, accepts) ==
        m.(q := if closes then Without(q2, i) else q2,
           queueSz := if closes then m.queueSz - 1 else m.queueSz,
           pushed := if now then m.pushed + [m.q[i + 1].num] else m.pushed)
  {
  }

  lemma TakerIs(q: seq<Cmd>, reqid: nat, accepts: set<nat>, i: nat)
    requires i <= |q|
    requires forall j :: 0 <= j < i ==> !Takes(q[j], reqid, accepts)
    requires i < |q| ==> Takes(q[i], reqid, accepts)
    ensures FirstTaker(q, reqid, accepts) == i
  {
    var x := FirstTaker(q, reqid, accepts);
    assert x == |q| || !(0 <= x < i);
  }

  lemma PushableIs(q: seq<Cmd>, i: nat)
    requires i <= |q|
    requires forall j :: 0 <= j < i ==> !q[j].waitPush
    requires i < |q| ==> q[i].waitPush
    ensures FirstWaitPush(q) == i
  {
    var x := FirstWaitPush(q);
    assert x == |q| || !(0 <= x < i);
  }

  lemma ReadsWithout(list: seq<AmlCmd>, q: seq<Cmd>, at: nat)
    requires Reads(list, q) && NoDup(list) && at < |list|
    ensures Reads(Without(list, at), Without(q, at)) && NoDup(Without(list, at))
  {
  }

  /** A command that got an answer, closed if it waits for nothing else. */
  ghost function Answered(c: Cmd): Cmd {
    if c.WaitComplete() then c.Closed() else c
  }

  /** The effect of an ACK in two parts: on the acknowledged command, and on the next one
      to let go. */
  lemma AckedValue(bus: Bus, m: Mgr, at: nat, deferPush: bool, q1: seq<Cmd>, q2: seq<Cmd>)
    requires at < |m.q|
    requires deferPush == !(AckHit(m.q, m.q[at].tkn) < |m.q| && !m.q[at].waitCfm)
    requires q1 == if AckHit(m.q, m.q[at].tkn) < |m.q| then m.q[at := Answered(m.q[at].(waitAck := false))] else m.q
    requires
      var n := AckNext(m.q, m.q[at].tkn);
      q2 == if bus.Pcie? && !deferPush && n < |m.q| then q1[n := q1[n].(waitPush := false)] else q1
    ensures Acked(bus, m, at).q == if deferPush then q2 else Without(q2, at)
    ensures !deferPush && !m.q[at].waitPush ==> q2[at] == m.q[at].(waitAck := false).Closed()
    ensures
      var n := AckNext(m.q, m.q[at].tkn);
      Acked(bus, m, at) ==
        m.(q := Acked(bus, m, at).q,
           queueSz := if deferPush then m.queueSz else m.queueSz - 1,
           sem := if !bus.Pcie? && n < |m.q| then m.sem + 1 else m.sem,
           pushed := if bus.Pcie? && !deferPush && n < |m.q| then m.pushed + [m.q[n].num] else m.pushed)
  {
  }

  lemma AckedIs(bus: Bus, m: Mgr, at: nat, deferPush: bool, q1: seq<Cmd>, q2: seq<Cmd>, sz: int, sem: nat,
                pushed: seq<nat>)
    requires at < |m.q|
    requires deferPush == !(AckHit(m.q, m.q[at].tkn) < |m.q| && !m.q[at].waitCfm)
    requires q1 == if AckHit(m.q, m.q[at].tkn) < |m.q| then m.q[at := Answered(m.q[at].(waitAck := false))] else m.q
    requires
      var n := AckNext(m.q, m.q[at].tkn);
      && q2 == (if bus.Pcie? && !deferPush && n < |m.q| then q1[n := q1[n].(waitPush := false)] else q1)
      && sz == (if deferPush then m.queueSz else m.queueSz - 1)
      && sem == (if !bus.Pcie? && n < |m.q| then m.sem + 1 else m.sem)
      && pushed == if bus.Pcie? && !deferPush && n < |m.q| then m.pushed + [q1[n].num] else m.pushed
    ensures !deferPush && !m.q[at].waitPush ==> q2[at] == m.q[at].(waitAck := false).Closed()
    ensures Acked(bus, m, at) ==
              m.(q := if deferPush then q2 else Without(q2, at), queueSz := sz, sem := sem, pushed := pushed)
  {
    AckedValue(bus, m, at, deferPush, q1, q2);
  }

  /** Where the walk of an ACK stops: at `i` the end of the list or a command in WAIT_PUSH,
      having passed `hit`, the first command with the token, unless that is `i` itself. */
  lemma WalkEnds(q: seq<Cmd>, tkn: nat, i: nat, hit: nat)
    requires hit <= i <= |q|
    requires forall j :: 0 <= j < hit ==> q[j].tkn != tkn && !q[j].waitPush
    requires hit < i ==> q[hit].tkn == tkn
    requires forall j :: hit < j < i ==> !q[j].waitPush
    requires i < |q| ==> q[i].waitPush && (hit == i ==> q[i].tkn != tkn)
    ensures AckHit(q, tkn) == (if hit < i then hit else |q|)
    ensures AckNext(q, tkn) == i
  {
  }
}
