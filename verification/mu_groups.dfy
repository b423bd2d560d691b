/** The group allocator: groups are created, completed and evicted as stations become
    active, and stations are taken out of them when they leave. */
module MuGroups {
  import opened MuModel
  import opened MuSteps
  import opened MuShare
  import opened MuSelect
  import opened MuLeave
  import opened MuSort

  /** What happens to the allocator from outside: a station joins, has traffic, or leaves, a
      group is used, the group work runs. */
  datatype Op = Join(s: nat, su: bool) | Traffic(s: nat, n: int) | Leave(s: nat) | Use(g: nat) | Run(list: seq<nat>)

  predicate Possible(m: Mu, op: Op) {
    match op
    case Join(s, _) => s in m.stas ==> m.stas[s].groups == {} && s !in m.activeSta && s !in m.updateSta
    case Traffic(_, _) => true
    case Leave(s) => s in m.stas
    case Use(g) => g in m.groups
    case Run(list) => NoDup(list) && forall s :: s in list ==> s in m.stas
  }

  /** A station leaves a group of two. */
  predicate Breaks(m: Mu, op: Op) {
    op.Leave? && op.s in m.stas && PairGroups(m, op.s) != {}
  }

  class MuInfo {
    const nx: nat            // number of groups
    const u: nat             // users of a group
    var mu: Mu
    ghost var fw: map<nat, set<(nat, nat)>>   // what the firmware was told last
    ghost var made: seq<set<nat>>             // the stations for which the last run created groups

    ghost predicate Valid()
      reads this`mu
    {
      Consistent(mu, nx, u)
    }

    /** aml_mu_group_remove_users */
    method RemoveUsers(g: nat)
      requires Valid() && g in mu.groups
      modifies this`mu
      ensures Valid() && OnlyGroup(old(mu), mu, g) && mu.groups[g].userCnt == 0
      ensures forall s :: s in mu.stas ==> g !in mu.stas[s].groups
      ensures old(InTouch(mu, fw)) ==> InTouch(mu, fw)
    {
      ghost var m0 := mu;
      ClearAll(m0, g);
      EmptiedKeeps(m0, mu, nx, u, g);
      EmptiedOut(m0, mu, u, g);
      EmptiedTold(m0, mu, g, fw);
      ResetCnt(m0, g);
    }

    /** The loop of aml_mu_group_remove_users. */
    method ClearAll(ghost m0: Mu, g: nat)
      requires Clearing(m0, mu, u, g, 0)
      modifies this`mu
      ensures Clearing(m0, mu, u, g, u) && mu.groupCnt == old(mu).groupCnt
      ensures old(InTouch(mu, fw)) ==> InTouch(mu, fw)
    {
      var i := 0;
      while i < u
        invariant i <= u && Clearing(m0, mu, u, g, i) && mu.groupCnt == old(mu).groupCnt
        invariant old(InTouch(mu, fw)) ==> InTouch(mu, fw)
      {
        ClearNext(m0, g, i);
        i := i + 1;
      }
    }

    method ClearNext(ghost m0: Mu, g: nat, i: nat)
      requires i < u && Clearing(m0, mu, u, g, i)
      modifies this`mu
      ensures Clearing(m0, mu, u, g, i + 1) && mu.groupCnt == old(mu).groupCnt
      ensures old(InTouch(mu, fw)) ==> InTouch(mu, fw)
    {
      if mu.groups[g].users[i].Used? {
        ClearingStep(m0, mu, u, g, i, fw);
        Evict(g, i);
      }
    }

    method Evict(g: nat, j: nat)
      requires g in mu.groups && j < |mu.groups[g].users| && mu.groups[g].users[j].Used?
      requires mu.groups[g].users[j].sta in mu.stas
      modifies this`mu
      ensures mu == Evicted(old(mu), g, j)
    {
      var s := mu.groups[g].users[j].sta;
      var sta := mu.stas[s];
      mu := mu.(groups := SetSlot(mu.groups, g, j, Free));
      sta := sta.(cnt := sta.cnt - 1);
      sta := sta.(groups := sta.groups - {g});
      mu := mu.(stas := mu.stas[s := sta]);
      mu := Marked(mu, s);
    }

    method ResetCnt(ghost m0: Mu, g: nat)
      requires g in mu.groups && g in m0.groups && mu.groups[g].userCnt == m0.groups[g].userCnt
      requires mu.groupCnt == m0.groupCnt
      modifies this`mu
      ensures mu == Emptied(m0, old(mu), g)
    {
      if mu.groups[g].userCnt != 0 {
        mu := mu.(groupCnt := mu.groupCnt - 1);
      }
      mu := mu.(groups := SetCnt(mu.groups, g, 0));
    }

    /** aml_mu_group_add_users */
    method AddUsers(g: nat, us: seq<nat>)
      requires Valid() && Seatable(mu, u, g, us)
      modifies this`mu
      ensures Valid() && Added(old(mu), mu, g, us) && (old(InTouch(mu, fw)) ==> InTouch(mu, fw))
    {
      ghost var m0 := mu;
      SeatingStarts(m0, nx, u, g, us, fw);
      Open(g);
      ghost var end := SeatAll(m0, g, us);
      SeatingDone(m0, mu, nx, u, g, us, end, fw);
    }

    method Open(g: nat)
      requires g in mu.groups
      modifies this`mu
      ensures mu == Opened(old(mu), g)
    {
      if mu.groups[g].userCnt == 0 {
        mu := mu.(groupCnt := mu.groupCnt + 1);
      }
    }

    /** The loops of aml_mu_group_add_users. */
    method SeatAll(ghost m0: Mu, g: nat, us: seq<nat>) returns (ghost end: nat)
      requires Seatable(m0, u, g, us) && Seating(m0, mu, u, g, us, 0, 0, fw)
      modifies this`mu
      ensures Seating(m0, mu, u, g, us, |us|, end, fw)
    {
      var i, j := 0, 0;
      while i < |us|
        invariant i <= |us| && Seating(m0, mu, u, g, us, i, j, fw)
      {
        j := SeatNext(m0, g, us, i, j);
        i := i + 1;
      }
      end := j;
    }

    method SeatNext(ghost m0: Mu, g: nat, us: seq<nat>, i: nat, from: nat) returns (j: nat)
      requires Seatable(m0, u, g, us) && i < |us| && Seating(m0, mu, u, g, us, i, from, fw)
      modifies this`mu
      ensures Seating(m0, mu, u, g, us, i + 1, j, fw)
    {
      SeatingRoom(m0, mu, u, g, us, i, from, fw);
      j := NextSeat(g, from);
      SeatHere(m0, g, us, i, from, j);
      j := j + 1;
    }

    method SeatHere(ghost m0: Mu, g: nat, us: seq<nat>, i: nat, ghost from: nat, j: nat)
      requires Seatable(m0, u, g, us) && i < |us| && Seating(m0, mu, u, g, us, i, from, fw) && j < u
      requires |mu.groups[g].users| == u && mu.groups[g].users[j] == Free
      requires FilledTo(mu.groups[g].users, j)
      modifies this`mu
      ensures Seating(m0, mu, u, g, us, i + 1, j + 1, fw)
    {
      SeatingStep(m0, mu, u, g, us, i, from, j, fw);
      Seat(g, j, us[i]);
    }

    /** The inner loop of aml_mu_group_add_users: the next free slot.  Its warning, raised
        when the last slot is found filled, is the assertion. */
    method NextSeat(g: nat, from: nat) returns (j: nat)
      requires g in mu.groups && |mu.groups[g].users| == u && Filled(mu.groups[g].users) < u && from <= u
      requires FilledTo(mu.groups[g].users, from)
      ensures from <= j < u && mu.groups[g].users[j] == Free
      ensures FilledTo(mu.groups[g].users, j)
    {
      j := from;
      if j == u { AllFilled(mu.groups[g].users); }
      while mu.groups[g].users[j] != Free
        invariant from <= j < u
        invariant FilledTo(mu.groups[g].users, j)
        decreases u - j
      {
        RoomAhead(mu.groups[g].users, j);
        assert j != u - 1;
        j := j + 1;
      }
    }

    method Seat(g: nat, j: nat, s: nat)
      requires g in mu.groups && j < |mu.groups[g].users| && s in mu.stas
      modifies this`mu
      ensures mu == Seated(old(mu), g, j, s)
    {
      var group, sta := mu.groups[g], mu.stas[s];
      group := group.(users := group.users[j := Used(s)]);
      sta := sta.(cnt := sta.cnt + 1);
      sta := sta.(groups := sta.groups + {g});
      group := group.(userCnt := group.userCnt + 1);
      mu := Marked(mu.(groups := mu.groups[g := group], stas := mu.stas[s := sta]), s);
    }

    /** The bitmaps that the users have in common and that any of them has. */
    method MatchAvail(us: seq<nat>) returns (match_: set<nat>, avail: set<nat>)
      requires Candidates(mu, u, us)
      ensures forall g :: g in match_ <==> InAll(mu.stas, us, g)
      ensures forall g :: g in avail <==> InSome(mu.stas, us, g)
    {
      ghost var stas := mu.stas;
      match_, avail := mu.stas[us[0]].groups, mu.stas[us[0]].groups;
      var i := 1;
      while i < |us|
        invariant 1 <= i <= |us|
        invariant forall g :: g in match_ <==> InAllOf(stas, us, i, g)
        invariant forall g :: g in avail <==> InSomeOf(stas, us, i, g)
      {
        forall g
          ensures InAllOf(stas, us, i + 1, g) <==> InAllOf(stas, us, i, g) && g in stas[us[i]].groups
          ensures InSomeOf(stas, us, i + 1, g) <==> InSomeOf(stas, us, i, g) || g in stas[us[i]].groups
        {
          InOfNext(stas, us, i, g);
        }
        match_ := match_ * mu.stas[us[i]].groups;
        avail := avail + mu.stas[us[i]].groups;
        i := i + 1;
      }
    }

    /** The users to add for group `g` to have them all. */
    method Lacking(us: seq<nat>, g: nat) returns (us2: seq<nat>)
      requires Candidates(mu, u, us)
      ensures us2 == Missing(mu.stas, us, g) && NoDup(us2)
    {
      us2 := [];
      var i := 0;
      while i < |us|
        invariant i <= |us| && us2 == Missing(mu.stas, us[..i], g)
      {
        assert us[..i + 1][..i] == us[..i];
        if g !in mu.stas[us[i]].groups {
          us2 := us2 + [us[i]];
        }
        i := i + 1;
      }
      assert us[..i] == us;
      MissingNoDup(mu.stas, us, g);
    }

    /** aml_mu_group_create_one: after it the group used last has all the users.  A group
        they share is reused; else, if groups have more than two users, one that has room
        is completed; else the least recently used one is replaced. */
    method CreateOne(us: seq<nat>, left: int) returns (created: bool, left': int, ghost g: nat)
      requires Valid() && Candidates(mu, u, us)
      modifies this`mu, this`made
      ensures Valid() && (old(InTouch(mu, fw)) ==> InTouch(mu, fw))
      ensures Outcome(old(mu), mu, u, us, g, created)
      ensures left' == (if created then left - 1 else left) && KeepsActive(old(mu), mu)
      ensures made == if created then old(made) + [Users(us)] else old(made)
    {
      var match_, avail := MatchAvail(us);
      if match_ != {} {
        created, left' := false, left;
        g := UseShared(us, match_);
      } else {
        assert NoneShared(mu.stas, us);
        created, left', g := CreateNew(us, left, avail);
      }
    }

    /** The users share no group. */
    method CreateNew(us: seq<nat>, left: int, avail: set<nat>) returns (created: bool, left': int, ghost g: nat)
      requires Valid() && Candidates(mu, u, us) && (forall h :: h in avail <==> InSome(mu.stas, us, h))
      requires NoneShared(mu.stas, us)
      modifies this`mu, this`made
      ensures Valid() && (old(InTouch(mu, fw)) ==> InTouch(mu, fw))
      ensures Outcome(old(mu), mu, u, us, g, created) && KeepsActive(old(mu), mu)
      ensures left' == if created then left - 1 else left
      ensures made == if created then old(made) + [Users(us)] else old(made)
    {
      if u > 2 {
        var done;
        done, g := FindRoom(us, avail);
        if done {
          return false, left, g;
        }
      }
      g := ReplaceLast(us);
      return true, left - 1, g;
    }

    method FindRoom(us: seq<nat>, avail: set<nat>) returns (done: bool, ghost g: nat)
      requires Valid() && Candidates(mu, u, us) && u > 2 && (forall h :: h in avail <==> InSome(mu.stas, us, h))
      requires NoneShared(mu.stas, us)
      modifies this`mu
      ensures Valid() && (old(InTouch(mu, fw)) ==> InTouch(mu, fw))
      ensures done ==> Outcome(old(mu), mu, u, us, g, false) && KeepsActive(old(mu), mu)
      ensures !done ==> mu == old(mu) && NoRoom(mu, u, us)
    {
      ghost var m0 := mu;
      done, g := false, 0;
      if avail != {} {
        done, g := Complete(us, avail);
      } else {
        NoneAvail(mu, u, us, avail);
      }
      if done { OutcomeCompleted(m0, mu, u, us, g); }
    }

    method ReplaceLast(us: seq<nat>) returns (ghost g: nat)
      requires Valid() && Candidates(mu, u, us) && NoneShared(mu.stas, us)
      requires u > 2 ==> NoRoom(mu, u, us)
      modifies this`mu, this`made
      ensures Valid() && (old(InTouch(mu, fw)) ==> InTouch(mu, fw))
      ensures Outcome(old(mu), mu, u, us, g, true) && KeepsActive(old(mu), mu)
      ensures made == old(made) + [Users(us)]
    {
      ghost var m0 := mu;
      made := made + [Users(us)];
      g := Replace(us);
      OutcomeReplaced(m0, mu, u, us, g);
    }

    method UseShared(us: seq<nat>, match_: set<nat>) returns (g: nat)
      requires Valid() && Candidates(mu, u, us) && match_ != {} && forall h :: h in match_ <==> InAll(mu.stas, us, h)
      modifies this`mu
      ensures Valid() && (old(InTouch(mu, fw)) ==> InTouch(mu, fw))
      ensures Outcome(old(mu), mu, u, us, g, false) && KeepsActive(old(mu), mu)
    {
      ghost var m0 := mu;
      g := Highest(match_, nx);
      assert us[0] in us && match_ <= mu.stas[us[0]].groups <= mu.groups.Keys;
      assert g in match_ by { var h :| h in match_; assert 1 <= h <= nx; }
      MoveHead(g);
      OutcomeReused(m0, mu, u, us, g);
    }

    /** The groups that one of the users is in, from the highest down, until one has room. */
    method Complete(us: seq<nat>, avail: set<nat>) returns (done: bool, g: nat)
      requires Valid() && Candidates(mu, u, us)
      requires forall h :: h in avail <==> InSome(mu.stas, us, h)
      requires NoneShared(mu.stas, us)
      modifies this`mu
      ensures Valid() && (old(InTouch(mu, fw)) ==> InTouch(mu, fw))
      ensures done ==> Completed(old(mu), mu, u, us, g)
      ensures !done ==> mu == old(mu) && NoRoom(mu, u, us)
    {
      ghost var m0 := mu;
      g := Highest(avail, nx);
      while g > 0
        invariant mu == m0 && g <= nx && (g > 0 ==> g in avail) && NoneAbove(m0, u, us, avail, nx, g)
        decreases g
      {
        done := TryComplete(us, g);
        if done {
          return;
        }
        NoneNext(m0, u, us, avail, nx, g, Highest(avail, g - 1));
        g := Highest(avail, g - 1);
      }
      NoneAtAll(m0, nx, u, us, avail);
      done := false;
    }

    /** The group is completed if it has room for the users it lacks. */
    method TryComplete(us: seq<nat>, g: nat) returns (done: bool)
      requires Valid() && Candidates(mu, u, us) && InSome(mu.stas, us, g) && !InAll(mu.stas, us, g)
      modifies this`mu
      ensures Valid() && (old(InTouch(mu, fw)) ==> InTouch(mu, fw))
      ensures if done then Completed(old(mu), mu, u, us, g) else mu == old(mu) && !Completable(mu, u, us, g)
    {
      HasMember(mu, nx, u, us, g);
      if mu.groups[g].userCnt == u {
        SomeMissing(mu, u, us, g);
        return false;
      }
      var us2 := Lacking(us, g);
      done := mu.groups[g].userCnt + |us2| <= u;
      if done {
        CompleteWith(us, us2, g);
      }
    }

    method CompleteWith(us: seq<nat>, us2: seq<nat>, g: nat)
      requires Valid() && Candidates(mu, u, us) && InSome(mu.stas, us, g) && !InAll(mu.stas, us, g) && g in mu.groups
      requires us2 == Missing(mu.stas, us, g) && NoDup(us2) && mu.groups[g].userCnt + |us2| <= u
      modifies this`mu
      ensures Valid() && (old(InTouch(mu, fw)) ==> InTouch(mu, fw))
      ensures Completed(old(mu), mu, u, us, g)
    {
      ghost var m0 := mu;
      HasMember(mu, nx, u, us, g);
      SomeMissing(mu, u, us, g);
      AddUsers(g, us2);
      ghost var m := mu;
      MoveHead(g);
      CompletedIs(m0, m, mu, u, us, us2, g);
    }

    /** aml_mu_group_move_head for the list of groups */
    method MoveHead(g: nat)
      requires Valid() && g in mu.groups
      modifies this`mu
      ensures Valid() && (old(InTouch(mu, fw)) ==> InTouch(mu, fw))
      ensures mu == old(mu).(activeGroups := ToFront(old(mu).activeGroups, g)) && mu.activeGroups[0] == g
    {
      MovedHead(mu, g, nx, u, fw);
      mu := mu.(activeGroups := ToFront(mu.activeGroups, g));
    }

    method Replace(us: seq<nat>) returns (g: nat)
      requires Valid() && Candidates(mu, u, us)
      modifies this`mu
      ensures Valid() && (old(InTouch(mu, fw)) ==> InTouch(mu, fw))
      ensures Replaced(old(mu), mu, us, g)
    {
      ghost var m0 := mu;
      assert 1 in mu.activeGroups;
      g := mu.activeGroups[|mu.activeGroups| - 1];
      assert g in mu.activeGroups;
      EvictFor(m0, us, g);
      ghost var m := mu;
      MoveHead(g);
      ReplacedIs(m0, m, mu, us, g);
    }

    /** The users of group `g` are replaced by others. */
    method EvictFor(ghost m0: Mu, us: seq<nat>, g: nat)
      requires Valid() && mu == m0 && Candidates(mu, u, us) && g in mu.groups
      modifies this`mu
      ensures Valid() && OnlyGroup(m0, mu, g) && (old(InTouch(mu, fw)) ==> InTouch(mu, fw))
      ensures forall s :: s in m0.stas ==>
        mu.stas[s].groups == if s in us then m0.stas[s].groups + {g} else m0.stas[s].groups - {g}
    {
      RemoveUsers(g);
      ghost var m1 := mu;
      ReplacedSeatable(m0, mu, u, us, g);
      AddUsers(g, us);
      OnlyGroupTwice(m0, m1, mu, g);
      ReplacedMembers(m0, m1, mu, us, g);
    }

    /** aml_mu_group_create for the first active station: groups of it with the stations
        that follow, up to `u - 1` of them at a time.  Each new group costs two of the
        number left, as both this loop and aml_mu_group_create_one count it.  Of the run so
        far, `t` is the number of attempts and `pairs` the pairs of stations put together. */
    method Create(left: int, ghost t: nat, ghost pairs: seq<(nat, nat)>, ghost list: seq<nat>, ghost watched: seq<nat>)
      returns (left': int, ghost t': nat, ghost pairs': seq<(nat, nat)>)
      requires Valid() && mu.activeSta != [] && Running(mu, nx, left, t, pairs, watched, made)
      requires Watched(u, watched) && watched in {[], list} && InOrder(list, pairs, PairList(mu.activeSta), left, t)
      modifies this`mu, this`made
      ensures Valid() && (old(InTouch(mu, fw)) ==> InTouch(mu, fw)) && KeepsActive(old(mu), mu)
      ensures Running(mu, nx, left', t', pairs', watched, made)
      ensures InOrder(list, pairs', PairList(mu.activeSta[1..]), left', t')
    {
      left', t', pairs' := left, t, pairs;
      ghost var m0, act, done := mu, mu.activeSta, 0;
      var sta := mu.activeSta[0];
      var pos := 0;
      while left' != 0
        invariant Valid() && KeepsActive(m0, mu) && pos < |act| && (old(InTouch(mu, fw)) ==> InTouch(mu, fw))
        invariant Running(mu, nx, left', t', pairs', watched, made) && done == pos
        invariant InOrder(list, pairs', RestOf(act, pos), left', t')
        decreases |act| - pos
      {
        var us, pos' := Gather(sta, pos);
        if |us| > 1 {
          ghost var m, n := mu, left';
          InOrderNext(list, act, pos, pos', us, pairs', left', left', t');
          left' := Count(us, left', t', pairs', RestOf(act, pos'), watched);
          KeepsTwice(m0, m, mu);
          t', pairs', done := t' + 1, pairs' + PairsOf(us), pos';
          if |us| < u {
            break;
          }
        } else {
          break;
        }
        pos := pos';
      }
      InOrderRow(list, act, done, pairs', left', t');
    }

    /** One attempt at a group, with both decrements of the number left. */
    method Count(us: seq<nat>, left: int, ghost t: nat, ghost pairs: seq<(nat, nat)>, ghost rest: seq<(nat, nat)>,
                 ghost watched: seq<nat>)
      returns (left': int)
      requires Valid() && Candidates(mu, u, us) && Running(mu, nx, left, t, pairs, watched, made) && Watched(u, watched)
      requires left != 0 && (watched == [] || ComeNext(watched, pairs, us, rest))
      modifies this`mu, this`made
      ensures Valid() && (old(InTouch(mu, fw)) ==> InTouch(mu, fw)) && KeepsActive(old(mu), mu)
      ensures Running(mu, nx, left', t + 1, pairs + PairsOf(us), watched, made)
    {
      ghost var m0, n := mu, made;
      var created;
      ghost var g;
      created, left', g := CreateOne(us, left);
      ghost var m1, n1 := mu, made;
      assert Outcome(m0, m1, u, us, g, created) && n1 == if created then n + [Users(us)] else n;
      if created {
        left' := left' - 1;
      }
      RunningMore(m0, m1, nx, u, us, g, created, left, left', t, pairs, rest, watched, n, n1);
    }

    /** The station and those that follow position `pos` on the active list, as many as a
        group takes. */
    method Gather(sta: nat, pos: nat) returns (us: seq<nat>, pos': nat)
      requires Valid() && pos < |mu.activeSta| && sta == mu.activeSta[0]
      ensures pos <= pos' < |mu.activeSta| && us == [sta] + mu.activeSta[pos + 1..pos' + 1]
      ensures |us| > 1 ==> pos' > pos && Candidates(mu, u, us)
      ensures |us| < u ==> pos' == |mu.activeSta| - 1
    {
      us, pos' := [sta], pos;
      while pos' + 1 < |mu.activeSta| && |us| < u
        invariant pos <= pos' < |mu.activeSta| && us == [sta] + mu.activeSta[pos + 1..pos' + 1] && |us| <= u
      {
        pos' := pos' + 1;
        us := us + [mu.activeSta[pos']];
      }
      forall i, j | 0 <= i < j < |us|
        ensures us[i] != us[j]
      {
        assert us[i] == if i == 0 then mu.activeSta[0] else mu.activeSta[pos + i];
        assert us[j] == mu.activeSta[pos + j];
      }
      assert forall i :: 0 <= i < |us| ==> us[i] in mu.activeSta;
    }

    /** Counting station `k` for each of its groups, from the highest down. */
    method TallySta(ghost stas: map<nat, Sta>, ghost list: seq<nat>, ghost k: nat, sta: Sta,
                    nb: array<int>, traffic: array<int>, order: array<nat>, cnt: nat) returns (cnt': nat)
      requires k < |list| && list[k] in stas && sta.traffic == stas[list[k]].traffic
      requires sta.groups == stas[list[k]].groups
      requires Busy(stas[list[k]])
      requires nb != traffic && nb.Length == traffic.Length == order.Length == nx + 1 && cnt <= nx
      requires Tallied(stas, list, nx, k, nx, nb[..], traffic[..], order[..cnt])
      modifies nb, traffic, order
      ensures cnt' <= nx && Tallied(stas, list, nx, k + 1, nx, nb[..], traffic[..], order[..cnt'])
    {
      cnt' := cnt;
      var g := Highest(sta.groups, nx);
      TallySkip(stas, list, nx, k, nx, g, nb[..], traffic[..], order[..cnt]);
      while g > 0
        invariant 0 <= g <= nx && (g > 0 ==> g in sta.groups) && cnt' <= nx
        invariant Tallied(stas, list, nx, k, g, nb[..], traffic[..], order[..cnt'])
        decreases g
      {
        cnt' := TallyGroup(stas, list, k, sta.traffic, g, nb, traffic, order, cnt');
        var next := Highest(sta.groups, g - 1);
        TallySkip(stas, list, nx, k, g - 1, next, nb[..], traffic[..], order[..cnt']);
        g := next;
      }
      TallyDone(stas, list, nx, k, nb[..], traffic[..], order[..cnt']);
    }

    method TallyGroup(ghost stas: map<nat, Sta>, ghost list: seq<nat>, ghost k: nat, staTraffic: int, g: nat,
                      nb: array<int>, traffic: array<int>, order: array<nat>, cnt: nat) returns (cnt': nat)
      requires k < |list| && list[k] in stas && staTraffic == stas[list[k]].traffic && g in stas[list[k]].groups
      requires Busy(stas[list[k]]) && 1 <= g <= nx
      requires nb != traffic && nb.Length == traffic.Length == order.Length == nx + 1 && cnt <= nx
      requires Tallied(stas, list, nx, k, g, nb[..], traffic[..], order[..cnt])
      modifies nb, traffic, order
      ensures cnt' <= nx && Tallied(stas, list, nx, k, g - 1, nb[..], traffic[..], order[..cnt'])
    {
      ghost var n, t, o := nb[..], traffic[..], order[..cnt];
      TallyOne(stas, list, nx, k, g, n, t, o);
      nb[g] := nb[g] + 1;
      traffic[g] := traffic[g] + staTraffic;
      cnt' := cnt;
      if nb[g] == 2 {
        order[cnt] := g;
        cnt' := cnt + 1;
      }
      assert nb[..] == n[g := n[g] + 1] && traffic[..] == t[g := t[g] + staTraffic];
      assert order[..cnt'] == if n[g] + 1 == 2 then o + [g] else o;
    }

    /** Reading a station's traffic starts its count anew; its group is given up. */
    method ResetSta(s: nat) returns (sta: Sta)
      requires Valid() && s in mu.stas
      modifies this`mu
      ensures Valid() && (old(InTouch(mu, fw)) ==> InTouch(mu, fw))
      ensures sta == old(mu).stas[s] && mu == old(mu).(stas := old(mu).stas[s := sta.(traffic := 0, group := 0)])
    {
      sta := mu.stas[s];
      SetStaKeeps(mu, nx, u, s, sta.(traffic := 0, group := 0), fw);
      mu := mu.(stas := mu.stas[s := sta.(traffic := 0, group := 0)]);
    }

    /** The first pass of aml_mu_group_sta_select: statistics of each group. */
    method Tally(list: seq<nat>, nb: array<int>, traffic: array<int>, order: array<nat>) returns (cnt: nat)
      requires Valid() && NoDup(list) && forall s :: s in list ==> s in mu.stas
      requires nb != traffic && nb.Length == traffic.Length == order.Length == nx + 1
      requires forall i :: 0 <= i <= nx ==> nb[i] == 0 && traffic[i] == 0
      modifies this`mu, nb, traffic, order
      ensures Valid() && (old(InTouch(mu, fw)) ==> InTouch(mu, fw))
      ensures Restarted(old(mu), mu, list, |list|) && cnt <= nx
      ensures Tallied(old(mu).stas, list, nx, |list|, nx, nb[..], traffic[..], order[..cnt])
    {
      ghost var m0 := mu;
      cnt := 0;
      var k := 0;
      while k < |list|
        invariant k <= |list| && Valid() && (InTouch(m0, fw) ==> InTouch(mu, fw))
        invariant Restarted(m0, mu, list, k) && cnt <= nx
        invariant Tallied(m0.stas, list, nx, k, nx, nb[..], traffic[..], order[..cnt])
      {
        cnt := TallyNext(m0, list, k, nb, traffic, order, cnt);
        k := k + 1;
      }
    }

    method TallyNext(ghost m0: Mu, list: seq<nat>, k: nat, nb: array<int>, traffic: array<int>, order: array<nat>,
                     cnt: nat)
      returns (cnt': nat)
      requires Valid() && NoDup(list) && k < |list| && list[k] in mu.stas && Restarted(m0, mu, list, k) && cnt <= nx
      requires nb != traffic && nb.Length == traffic.Length == order.Length == nx + 1
      requires Tallied(m0.stas, list, nx, k, nx, nb[..], traffic[..], order[..cnt])
      modifies this`mu, nb, traffic, order
      ensures Valid() && (old(InTouch(mu, fw)) ==> InTouch(mu, fw))
      ensures Restarted(m0, mu, list, k + 1) && cnt' <= nx
      ensures Tallied(m0.stas, list, nx, k + 1, nx, nb[..], traffic[..], order[..cnt'])
    {
      ghost var m := mu;
      var sta := ResetSta(list[k]);
      RestartedNext(m0, m, list, k, mu);
      if sta.cnt == 0 || sta.traffic < MIN_TRAFFIC {
        TallySkip(m0.stas, list, nx, k, nx, 0, nb[..], traffic[..], order[..cnt]);
        TallyDone(m0.stas, list, nx, k, nb[..], traffic[..], order[..cnt]);
        cnt' := cnt;
      } else {
        cnt' := TallySta(m0.stas, list, k, sta, nb, traffic, order, cnt);
      }
    }

    /** One group of the second pass: its users take it, and count no more for their others. */
    method Assign(ghost stas0: map<nat, Sta>, ghost list: seq<nat>, ghost given: seq<nat>, g: nat, nb: array<int>)
      requires Valid() && g in mu.groups && g in given && nb.Length == nx + 1
      requires Giving(stas0, mu, list, nx, nb[..], given)
      modifies this`mu, nb
      ensures Valid() && GivenTo(old(mu), mu, g) && Giving(stas0, mu, list, nx, nb[..], given)
      ensures u == |mu.groups[g].users| && nb[..] == MinusAll(old(mu).stas, mu.groups[g].users, u, g, old(nb[..]))
      ensures old(InTouch(mu, fw)) ==> InTouch(mu, fw)
    {
      ghost var m1, n1, end := AssignSlots(stas0, list, given, g, nb);
      ghost var m2, n2 := mu, nb[..];
      AssigningEnds(m1, n1, m2, stas0, list, nx, n2, given, g, end);
    }

    /** The loop over the slots. */
    method AssignSlots(ghost stas0: map<nat, Sta>, ghost list: seq<nat>, ghost given: seq<nat>, g: nat, nb: array<int>)
      returns (ghost m1: Mu, ghost n1: seq<int>, ghost end: nat)
      requires Valid() && g in mu.groups && g in given && nb.Length == nx + 1
      requires Giving(stas0, mu, list, nx, nb[..], given)
      modifies this`mu, nb
      ensures m1 == old(mu) && n1 == old(nb[..]) && end == u
      ensures Valid() && (old(InTouch(mu, fw)) ==> InTouch(mu, fw))
      ensures Assigning(m1, n1, mu, stas0, list, nx, nb[..], given, g, end)
    {
      m1, n1 := mu, nb[..];
      AssigningStarts(m1, stas0, list, nx, n1, given, g);
      var j := 0;
      while j < u
        invariant j <= u && Valid() && (InTouch(m1, fw) ==> InTouch(mu, fw))
        invariant Assigning(m1, n1, mu, stas0, list, nx, nb[..], given, g, j)
      {
        AssignNext(m1, n1, stas0, list, given, g, j, nb);
        j := j + 1;
      }
      end := j;
    }

    /** Slot `j` of the group assigned. */
    method AssignNext(ghost m1: Mu, ghost n1: seq<int>, ghost stas0: map<nat, Sta>, ghost list: seq<nat>,
                      ghost given: seq<nat>, g: nat, j: nat, nb: array<int>)
      requires Valid() && g in mu.groups && g in given && nb.Length == nx + 1 && j < u
      requires Assigning(m1, n1, mu, stas0, list, nx, nb[..], given, g, j)
      modifies this`mu, nb
      ensures Valid() && (old(InTouch(mu, fw)) ==> InTouch(mu, fw))
      ensures Assigning(m1, n1, mu, stas0, list, nx, nb[..], given, g, j + 1)
    {
      var x := mu.groups[g].users[j];
      ghost var m, n := mu, nb[..];
      if x.Used? {
        Hand(stas0, list, given, g, j, x.sta, nb);
      }
      AssigningNext(m1, n1, m, mu, stas0, list, nx, n, nb[..], given, g, j);
    }

    method Hand(ghost stas0: map<nat, Sta>, ghost list: seq<nat>, ghost given: seq<nat>, g: nat, ghost j: nat,
                s: nat, nb: array<int>)
      requires Valid() && g in mu.groups && g in given && j < u && mu.groups[g].users[j] == Used(s)
      requires nb.Length == nx + 1 && Giving(stas0, mu, list, nx, nb[..], given)
      modifies this`mu, nb
      ensures Valid() && (old(InTouch(mu, fw)) ==> InTouch(mu, fw))
      ensures s in old(mu).stas && mu == old(mu).(stas := old(mu).stas[s := old(mu).stas[s].(group := g)])
      ensures Giving(stas0, mu, list, nx, nb[..], given)
      ensures nb[..] == Minus(old(mu).stas[s].groups, g, old(nb[..]))
    {
      ghost var m, n := mu, nb[..];
      Pick(g, j, s);
      Discount(g, s, nb);
      MinusDiscounts(m.stas[s].groups, g, nx, n);
      GiveStep(stas0, m, mu, list, nx, n, nb[..], given, s, g);
    }

    method Pick(g: nat, ghost j: nat, s: nat)
      requires Valid() && g in mu.groups && j < u && mu.groups[g].users[j] == Used(s)
      modifies this`mu
      ensures Valid() && (old(InTouch(mu, fw)) ==> InTouch(mu, fw))
      ensures s in old(mu).stas && g in old(mu).stas[s].groups
      ensures mu == old(mu).(stas := old(mu).stas[s := old(mu).stas[s].(group := g)])
    {
      assert Used(s) in mu.groups[g].users;
      SetStaKeeps(mu, nx, u, s, mu.stas[s].(group := g), fw);
      mu := mu.(stas := mu.stas[s := mu.stas[s].(group := g)]);
    }

    /** A user of `g` counts no more for its other groups. */
    method Discount(g: nat, s: nat, nb: array<int>)
      requires s in mu.stas && 0 !in mu.stas[s].groups && nb.Length == nx + 1
      modifies nb
      ensures nb[..] == Minus(mu.stas[s].groups, g, old(nb[..]))
    {
      var groups := mu.stas[s].groups;
      var tmp := Highest(groups, nx);
      while tmp > 0
        invariant 0 <= tmp <= nx && (tmp > 0 ==> tmp in groups)
        invariant forall h :: 0 <= h <= nx ==>
          nb[h] == if h > tmp && h != g && h in groups then old(nb[h]) - 1 else old(nb[h])
        decreases tmp
      {
        if g != tmp {
          nb[tmp] := nb[tmp] - 1;
        }
        tmp := Highest(groups, tmp - 1);
      }
    }

    /** The second pass of aml_mu_group_sta_select, over the groups in order. */
    method GiveOut(ghost m0: Mu, ghost list: seq<nat>, table: array<nat>, cnt: nat, nb: array<int>)
      requires Valid() && NoDup(list) && Linked(mu.groups, m0.stas, u) && SameGroups(m0.stas, mu.stas)
      requires nb.Length == nx + 1 && cnt <= table.Length && Ranked(m0.stas, list, nx, table[..cnt])
      requires Giving(m0.stas, mu, list, nx, nb[..], []) && LeftOver(m0.stas, list, nx, nb[..], [])
      requires Distributed(m0.stas, mu.stas, list, [])
      modifies this`mu, nb
      ensures Valid() && Regrouped(old(mu), mu) && (old(InTouch(mu, fw)) ==> InTouch(mu, fw))
      ensures Apportioned(mu, list, u, table[..cnt])
      ensures Distributed(m0.stas, mu.stas, list, Picked(m0.stas, list, table[..cnt]))
    {
      ghost var order, end := GiveAll(m0, list, table, cnt, nb);
      ghost var m, n := mu, nb[..];
      HandedOutEnds(m0.stas, m, list, nx, u, n, order);
    }

    /** The loop over the table. */
    method GiveAll(ghost m0: Mu, ghost list: seq<nat>, table: array<nat>, cnt: nat, nb: array<int>)
      returns (ghost order: seq<nat>, ghost end: nat)
      requires Valid() && NoDup(list) && Linked(mu.groups, m0.stas, u) && SameGroups(m0.stas, mu.stas)
      requires nb.Length == nx + 1 && cnt <= table.Length && Ranked(m0.stas, list, nx, table[..cnt])
      requires Giving(m0.stas, mu, list, nx, nb[..], []) && LeftOver(m0.stas, list, nx, nb[..], [])
      requires Distributed(m0.stas, mu.stas, list, [])
      modifies this`mu, nb
      ensures Valid() && Regrouped(old(mu), mu) && (old(InTouch(mu, fw)) ==> InTouch(mu, fw))
      ensures order == table[..cnt] && end == |order| && HandedOut(m0.stas, mu, list, nx, u, nb[..], order, end)
    {
      order := table[..cnt];
      ghost var m1, n1 := mu, nb[..];
      var i := 0;
      HandedOutStarts(m0.stas, m1, list, nx, u, n1, order);
      while i < cnt
        invariant i <= cnt && Valid() && Regrouped(m1, mu) && (InTouch(m1, fw) ==> InTouch(mu, fw))
        invariant table[..cnt] == order
        invariant HandedOut(m0.stas, mu, list, nx, u, nb[..], order, i)
      {
        assert order[i] in order;
        GiveNext(m0, m1, list, order, i, table[i], nb);
        i := i + 1;
      }
      end := i;
    }

    method GiveNext(ghost m0: Mu, ghost m1: Mu, ghost list: seq<nat>, ghost order: seq<nat>, ghost i: nat, g: nat,
                    nb: array<int>)
      requires Valid() && NoDup(list) && Linked(mu.groups, m0.stas, u) && SameGroups(m0.stas, m1.stas)
      requires Regrouped(m1, mu)
      requires nb.Length == nx + 1 && Ranked(m0.stas, list, nx, order) && i < |order| && g == order[i] && 1 <= g <= nx
      requires HandedOut(m0.stas, mu, list, nx, u, nb[..], order, i)
      modifies this`mu, nb
      ensures Valid() && Regrouped(m1, mu) && (old(InTouch(mu, fw)) ==> InTouch(mu, fw))
      ensures HandedOut(m0.stas, mu, list, nx, u, nb[..], order, i + 1)
    {
      PickedNext(m0.stas, list, order, i);
      if nb[g] < 2 {
        PassOver(m0.stas, mu, list, nx, u, nb[..], order, i);
        return;
      }
      ghost var m := mu;
      GiveMore(m0, list, order, i, g, Picked(m0.stas, list, order[..i]), nb);
      RegroupedTwice(m1, m, mu);
    }

    method GiveMore(ghost m0: Mu, ghost list: seq<nat>, ghost order: seq<nat>, ghost i: nat, g: nat,
                    ghost p: seq<nat>, nb: array<int>)
      requires Valid() && NoDup(list) && Linked(mu.groups, m0.stas, u) && SameGroups(m0.stas, mu.stas)
      requires nb.Length == nx + 1 && Ranked(m0.stas, list, nx, order) && i < |order| && g == order[i] && 1 <= g <= nx
      requires Handed(m0.stas, mu, list, nx, u, nb[..], order, i) && nb[g] >= 2
      requires LeftOver(m0.stas, list, nx, nb[..], p) && Distributed(m0.stas, mu.stas, list, p)
      modifies this`mu, nb
      ensures Valid() && Regrouped(old(mu), mu) && (old(InTouch(mu, fw)) ==> InTouch(mu, fw))
      ensures Handed(m0.stas, mu, list, nx, u, nb[..], order, i + 1)
      ensures LeftOver(m0.stas, list, nx, nb[..], p + [g]) && Distributed(m0.stas, mu.stas, list, p + [g])
    {
      ghost var m, n := mu, nb[..];
      GivenOne(m0.stas, mu, list, nx, n, order, i);
      Assign(m0.stas, list, order[..i + 1], g, nb);
      HandOver(mu.groups, m0.stas, m, mu, list, nx, u, n, nb[..], order, i);
      GivenPicked(m0, m, mu, list, nx, u, n, nb[..], p, g);
    }

    /** aml_mu_group_sta_select for the stations of the access point; `due` tells whether the
        selection interval is over. */
    method Select(list: seq<nat>, due: bool) returns (ghost order: seq<nat>)
      requires Valid() && NoDup(list) && forall s :: s in list ==> s in mu.stas
      modifies this`mu
      ensures Valid() && (old(InTouch(mu, fw)) ==> InTouch(mu, fw))
      ensures mu == old(mu).(stas := mu.stas)
      ensures mu.groupCnt == 0 || !due ==> mu == old(mu)
      ensures mu.groupCnt != 0 && due ==> Selection(old(mu), mu, list, nx, u, order)
    {
      order := [];
      if mu.groupCnt == 0 || !due {
        return;
      }
      order := Reselect(list);
    }

    method Reselect(list: seq<nat>) returns (ghost order: seq<nat>)
      requires Valid() && NoDup(list) && forall s :: s in list ==> s in mu.stas
      modifies this`mu
      ensures Valid() && (old(InTouch(mu, fw)) ==> InTouch(mu, fw))
      ensures mu == old(mu).(stas := mu.stas) && Selection(old(mu), mu, list, nx, u, order)
    {
      var nb := new int[nx + 1](i => 0);
      var traffic := new int[nx + 1](i => 0);
      var table := new nat[nx + 1](i => 0);
      ghost var m0 := mu;
      var cnt := Rank(list, nb, traffic, table);
      order := table[..cnt];
      ghost var m := mu;
      GiveOut(m0, list, table, cnt, nb);
      RegroupedSame(m0, m, mu, list);
    }

    /** The groups with two users or more, in the order of their traffic. */
    method Rank(list: seq<nat>, nb: array<int>, traffic: array<int>, table: array<nat>) returns (cnt: nat)
      requires Valid() && NoDup(list) && forall s :: s in list ==> s in mu.stas
      requires nb != traffic && nb.Length == traffic.Length == table.Length == nx + 1
      requires forall i :: 0 <= i <= nx ==> nb[i] == 0 && traffic[i] == 0
      modifies this`mu, nb, traffic, table
      ensures Valid() && (old(InTouch(mu, fw)) ==> InTouch(mu, fw)) && cnt <= nx
      ensures mu == old(mu).(stas := mu.stas) && SelectOnly(old(mu).stas, mu.stas, list)
      ensures Linked(mu.groups, old(mu).stas, u) && SameGroups(old(mu).stas, mu.stas)
      ensures Ranked(old(mu).stas, list, nx, table[..cnt]) && Giving(old(mu).stas, mu, list, nx, nb[..], [])
      ensures LeftOver(old(mu).stas, list, nx, nb[..], []) && Distributed(old(mu).stas, mu.stas, list, [])
    {
      ghost var m0 := mu;
      cnt := Tally(list, nb, traffic, table);
      GivingStarts(m0, mu, list, nx, nb[..], traffic[..], table[..cnt]);
      LeftOverStarts(m0, mu, list, nx, nb[..], traffic[..], table[..cnt]);
      RestartedSame(m0, mu, list);
      RankTable(m0.stas, list, nb[..], traffic, table, cnt);
    }

    /** Sorting the table. */
    method RankTable(ghost stas: map<nat, Sta>, ghost list: seq<nat>, ghost nb: seq<int>, traffic: array<int>,
                     table: array<nat>, cnt: nat)
      requires cnt <= table.Length && Tallied(stas, list, nx, |list|, nx, nb, traffic[..], table[..cnt])
      modifies table
      ensures Ranked(stas, list, nx, table[..cnt])
    {
      ghost var o := table[..cnt];
      assert forall i :: 0 <= i < |o| ==> o[i] in o;
      SortByTraffic(table, cnt, traffic);
      SortedRanks(stas, list, nx, nb, traffic[..], o, table[..cnt]);
    }

    /** The loop of aml_mu_group_work over the active stations. */
    method FormGroups(ghost watched: seq<nat>) returns (ghost t: nat, ghost pairs: seq<(nat, nat)>)
      requires Valid() && made == [] && Watched(u, watched) && AllApart(mu, watched) && watched in {[], mu.activeSta}
      modifies this`mu, this`made
      ensures Valid() && (old(InTouch(mu, fw)) ==> InTouch(mu, fw))
      ensures mu.activeSta == [] && mu.updateCount == old(mu).updateCount && SameTraffic(old(mu).stas, mu.stas)
      ensures Updated(mu, old(mu).activeSta, |old(mu).activeSta|)
      ensures AllPaired(mu, t, pairs) && Ended(nx, old(mu).activeSta, pairs, t, |made|)
      ensures OnlyMade(mu, watched, made) && Noted(watched, pairs, made, t)
    {
      ghost var list, stas := mu.activeSta, mu.stas;
      ghost var i := 0;
      var left := nx;
      t, pairs := 0, [];
      InOrderStarts(list, left);
      while mu.activeSta != []
        invariant i <= |list| && mu.activeSta == list[i..]
        invariant Valid() && (old(InTouch(mu, fw)) ==> InTouch(mu, fw))
        invariant mu.updateCount == old(mu).updateCount && SameTraffic(stas, mu.stas)
        invariant Updated(mu, list, i)
        invariant Running(mu, nx, left, t, pairs, watched, made) && InOrder(list, pairs, PairList(list[i..]), left, t)
        decreases |mu.activeSta|
      {
        ghost var stas1 := mu.stas;
        left, t, pairs := FormNext(list, i, left, t, pairs, watched);
        SameTrafficTwice(stas, stas1, mu.stas);
        i := i + 1;
      }
      InOrderEnds(nx, list, pairs, left, t, |made|);
    }

    method FormNext(ghost list: seq<nat>, ghost i: nat, left: int, ghost t: nat, ghost pairs: seq<(nat, nat)>,
                    ghost watched: seq<nat>)
      returns (left': int, ghost t': nat, ghost pairs': seq<(nat, nat)>)
      requires Valid() && i < |list| && mu.activeSta == list[i..]
      requires Running(mu, nx, left, t, pairs, watched, made) && Watched(u, watched) && watched in {[], list}
      requires InOrder(list, pairs, PairList(list[i..]), left, t)
      requires Updated(mu, list, i)
      modifies this`mu, this`made
      ensures Valid() && (old(InTouch(mu, fw)) ==> InTouch(mu, fw)) && mu.activeSta == list[i + 1..]
      ensures mu.updateCount == old(mu).updateCount && SameTraffic(old(mu).stas, mu.stas)
      ensures Updated(mu, list, i + 1)
      ensures Running(mu, nx, left', t', pairs', watched, made)
      ensures InOrder(list, pairs', PairList(list[i + 1..]), left', t')
    {
      left', t', pairs' := left, t, pairs;
      ghost var m0 := mu;
      if left != 0 {
        left', t', pairs' := Create(left, t, pairs, list, watched);
      }
      ghost var m1 := mu;
      assert list[i..][1..] == list[i + 1..];
      Drop(left', t', pairs', watched);
      DroppedUpdated(m0, m1, mu, list, i);
    }

    /** The first active station is done with: it notes the number of the run and is dropped. */
    method Drop(ghost left: int, ghost t: nat, ghost pairs: seq<(nat, nat)>, ghost watched: seq<nat>)
      requires Valid() && mu.activeSta != [] && Running(mu, nx, left, t, pairs, watched, made)
      modifies this`mu
      ensures Valid() && (old(InTouch(mu, fw)) ==> InTouch(mu, fw)) && Running(mu, nx, left, t, pairs, watched, made)
      ensures old(mu).activeSta[0] in old(mu).stas && mu == Dropped(old(mu))
    {
      DroppedKeeps(mu, nx, u, fw);
      RunningSame(mu, Dropped(mu), nx, left, t, pairs, watched, made);
      var s := mu.activeSta[0];
      mu := mu.(stas := mu.stas[s := mu.stas[s].(lastUpdate := mu.updateCount)]);
      mu := mu.(activeSta := mu.activeSta[1..]);
    }

    /** aml_mu_group_sta_get_pos: the slot of a station in a group, -1 if it has none. */
    method GetPos(s: nat, g: nat) returns (pos: int)
      requires Valid() && g >= 1
      ensures
        if g in mu.groups && Used(s) in mu.groups[g].users then 0 <= pos < u && mu.groups[g].users[pos] == Used(s)
        else pos == -1
    {
      if g > nx {
        return -1;
      }
      pos := SlotOf(mu.groups[g].users, s);
    }

    /** Its loop. */
    method SlotOf(users: seq<Slot>, s: nat) returns (pos: int)
      requires |users| == u
      ensures if Used(s) in users then 0 <= pos < u && users[pos] == Used(s) else pos == -1
    {
      pos := 0;
      while pos < u
        invariant 0 <= pos <= u && forall k :: 0 <= k < pos ==> users[k] != Used(s)
      {
        if users[pos] == Used(s) {
          return;
        }
        pos := pos + 1;
      }
      return -1;
    }

    /** The list of groups and positions that aml_send_mu_group_update_req sends. */
    method Message(s: nat) returns (req: seq<(nat, nat)>)
      requires Valid() && s in mu.stas
      ensures |req| == mu.stas[s].cnt && forall p :: p in req <==> p in Places(mu.groups, mu.stas, s)
    {
      var sta := mu.stas[s];
      req := [];
      var g: nat := Highest(sta.groups, nx);
      ReportedFrom(mu.groups, mu.stas, s, g);
      while g > 0
        invariant g <= nx && (g > 0 ==> g in sta.groups) && Reported(mu.groups, mu.stas, s, g, req)
        decreases g
      {
        SeatOf(mu, nx, u, s, g);
        var pos := GetPos(s, g);
        var next := Highest(sta.groups, g - 1);
        ReportedNext(mu.groups, mu.stas, s, g, next, req, pos);
        assert |req| < sta.cnt;
        req := req + [(g, pos)];
        g := next;
      }
      ReportedAll(mu.groups, mu.stas, s, req);
    }

    /** The firmware takes the message for the first station due, which is dropped. */
    method TellNext()
      requires Valid() && mu.updateSta != []
      modifies this`mu, this`fw
      ensures Valid() && mu == old(mu).(updateSta := old(mu).updateSta[1..])
      ensures old(InTouch(mu, fw)) ==> InTouch(mu, fw)
    {
      var s := mu.updateSta[0];
      TellFirst(mu, nx, u, fw);
      var req := Message(s);
      assert (set p | p in req) == Places(mu.groups, mu.stas, s);
      fw := fw[s := set p | p in req];
      mu := mu.(updateSta := mu.updateSta[1..]);
    }

    /** The second loop of aml_mu_group_work, over the stations due for an update. */
    method TellAll()
      requires Valid()
      modifies this`mu, this`fw
      ensures Valid() && mu == old(mu).(updateSta := []) && (old(InTouch(mu, fw)) ==> InTouch(mu, fw))
    {
      while mu.updateSta != []
        invariant Valid() && mu == old(mu).(updateSta := mu.updateSta) && (old(InTouch(mu, fw)) ==> InTouch(mu, fw))
        decreases |mu.updateSta|
      {
        TellNext();
      }
    }

    /** aml_mu_group_work: a run over the active stations, of which `list` are the clients of
        the access point. */
    method Work(list: seq<nat>) returns (ghost order: seq<nat>)
      requires Valid() && NoDup(list) && forall s :: s in list ==> s in mu.stas
      modifies this
      ensures Valid() && mu.activeSta == [] && mu.updateSta == []
      ensures old(InTouch(mu, fw)) ==> AllTold(mu, fw)
      ensures mu.updateCount == NextRun(old(mu).updateCount) && mu.stas.Keys == old(mu).stas.Keys
      ensures forall s :: s in old(mu).activeSta ==> s in mu.stas && mu.stas[s].lastUpdate == mu.updateCount
      ensures nx % 2 == 0 ==> 2 * |made| <= nx
      ensures SharesQuota(old(mu), mu, nx, u) && ShareIffFew(old(mu), mu, nx, u)
      ensures mu.groupCnt != 0 ==> RanksBusy(old(mu), mu, list, nx, order) && Apportioned(mu, list, u, order)
      ensures mu.groupCnt != 0 ==>
        Distributed(old(mu).stas, mu.stas, list, Picked(Measured(old(mu).stas, mu.stas), list, order))
      ensures forall s :: s in mu.stas ==>
        mu.stas[s].traffic == if mu.groupCnt != 0 && s in list then 0 else old(mu).stas[s].traffic
    {
      ghost var m0 := mu;
      ghost var t, pairs := Regroup();
      ghost var m := mu;
      order := Select(list, true);
      FormedSelected(m0, m, mu, nx, u, t, pairs, made, if mu.groupCnt == 0 then [] else list);
      WorkExactly(m0, mu, nx, u, t, pairs, made);
      if mu.groupCnt != 0 {
        RanksBusyIs(m0, m, mu, list, nx, u, order);
        DistributedIs(m0, m, mu, list, order);
      }
      if old(InTouch(mu, fw)) { NoneDue(mu, fw); }
    }

    /** The group work up to the selection. */
    method Regroup() returns (ghost t: nat, ghost pairs: seq<(nat, nat)>)
      requires Valid()
      modifies this
      ensures Valid() && (old(InTouch(mu, fw)) ==> InTouch(mu, fw)) && Formed(old(mu), mu, nx, u, t, pairs, made)
    {
      ghost var m0 := mu;
      StartRun();
      ghost var watched := ToWatch(m0, mu, u);
      t, pairs := FormGroups(watched);
      ghost var m := mu;
      TellAll();
      PairedSame(m, mu, t, pairs);
      MadeSame(m, mu, watched, made);
    }

    method StartRun()
      requires Valid()
      modifies this`mu, this`made
      ensures Valid() && mu == old(mu).(updateCount := NextRun(old(mu).updateCount)) && made == []
      ensures old(InTouch(mu, fw)) ==> InTouch(mu, fw)
    {
      CountKeeps(mu, nx, u, NextRun(mu.updateCount), fw);
      var n := (mu.updateCount + 1) % 0x1_0000;
      if n == 0 {
        n := n + 1;
      }
      mu := mu.(updateCount := n);
      made := [];
    }

    /** aml_mu_group_sta_del: the station leaves all its groups. */
    method StaDel(s: nat)
      requires Valid() && s in mu.stas
      modifies this`mu
      ensures Deleted(old(mu), mu, s)
      ensures Valid() <==> PairGroups(old(mu), s) == {}
      ensures old(InTouch(mu, fw)) ==> (InTouchBut(mu, fw, s) <==> !Missed(old(mu), s))
    {
      ghost var m0 := mu;
      var groups := mu.stas[s].groups;
      var g: nat := Highest(groups, nx);
      LeavingStarts(m0, s, g);
      while g > 0
        invariant g <= nx && (g > 0 ==> g in groups) && Leaving(m0, mu, s, g)
        decreases g
      {
        var next := Highest(groups, g - 1);
        LeavingStep(m0, mu, nx, u, s, g, next);
        Expel(s, g);
        g := next;
      }
      ghost var m1 := mu;
      mu := mu.(stas := mu.stas[s := mu.stas[s].(groups := {}, cnt := 0, traffic := 0)]);
      mu := mu.(activeSta := Without(mu.activeSta, s), updateSta := Without(mu.updateSta, s));
      assert mu == Gone(m1, s);
      DeletionConsistent(m0, mu, nx, u, s);
      if InTouch(m0, fw) { DeletionTold(m0, mu, nx, u, s, fw); }
    }

    /** The station is looked up in group `g`, whose warning is the precondition, and taken
        out of it. */
    method Expel(s: nat, g: nat)
      requires g in mu.groups && FirstAt(mu.groups[g].users, Used(s)) < |mu.groups[g].users|
      requires mu.groups[g].userCnt == 2 ==>
        var rest := Shrunk(mu.groups[g], s).users;
        FirstUsed(rest) < |rest| && rest[FirstUsed(rest)].sta in mu.stas && rest[FirstUsed(rest)].sta != s
      modifies this`mu
      ensures mu == Expelled(old(mu), s, g)
    {
      var gr := mu.groups[g];
      var i := 0;
      while gr.users[i] != Used(s)
        invariant 0 <= i < |gr.users| && forall k :: 0 <= k < i ==> gr.users[k] != Used(s)
        decreases |gr.users| - i
      {
        assert i != FirstAt(gr.users, Used(s));
        i := i + 1;
      }
      gr := gr.(users := gr.users[i := Free]);
      gr := gr.(userCnt := gr.userCnt - 1);
      if gr.userCnt == 1 {
        gr := DropLast(gr, g);
        mu := mu.(groupCnt := mu.groupCnt - 1);
      }
      mu := mu.(groups := mu.groups[g := gr]);
    }

    /** The user left alone in a group forgets it, but keeps its slot. */
    method DropLast(gr: Group, g: nat) returns (gr': Group)
      requires FirstUsed(gr.users) < |gr.users| && gr.users[FirstUsed(gr.users)].sta in mu.stas
      modifies this`mu
      ensures gr' == gr.(userCnt := gr.userCnt - 1)
      ensures
        var t := gr.users[FirstUsed(gr.users)].sta;
        t in old(mu).stas && mu == old(mu).(stas := old(mu).stas[t := Widowed(old(mu).stas[t], g)])
    {
      var j := 0;
      while gr.users[j] == Free
        invariant 0 <= j < |gr.users| && forall k :: 0 <= k < j ==> gr.users[k] == Free
        decreases |gr.users| - j
      {
        assert j != FirstUsed(gr.users);
        j := j + 1;
      }
      var t := gr.users[j].sta;
      var sta := mu.stas[t];
      sta := sta.(cnt := sta.cnt - 1);
      sta := sta.(groups := sta.groups - {g});
      if sta.group == g {
        sta := sta.(group := 0);
      }
      mu := mu.(stas := mu.stas[t := sta]);
      gr' := gr.(userCnt := gr.userCnt - 1);
    }

    /** aml_mu_group_sta_init: a station that is new, or deleted before, joins; `su` tells
        that it cannot take part in multi-user transmission. */
    method StaInit(s: nat, su: bool)
      requires Valid() && (s in mu.stas ==> mu.stas[s].groups == {} && s !in mu.activeSta && s !in mu.updateSta)
      modifies this`mu, this`fw
      ensures Valid() && mu == old(mu).(stas := old(mu).stas[s := Sta({}, 0, su, 0, 0, 0)])
      ensures old(InTouchBut(mu, fw, s)) ==> InTouch(mu, fw)
    {
      NewSta(mu, nx, u, s, su, fw);
      fw := fw[s := {}];
      mu := mu.(stas := mu.stas[s := Sta({}, 0, su, 0, 0, 0)]);
    }

    /** aml_mu_set_active_sta */
    method SetActiveSta(s: nat, traffic: int)
      requires Valid()
      modifies this`mu
      ensures Valid() && (old(InTouch(mu, fw)) ==> InTouch(mu, fw))
      ensures mu == if s in old(mu).stas && !old(mu).stas[s].su then Activated(old(mu), s, traffic) else old(mu)
      ensures s in old(mu).stas && !old(mu).stas[s].su ==> mu.stas[s].traffic == old(mu).stas[s].traffic + traffic
    {
      if s !in mu.stas || mu.stas[s].su {
        return;
      }
      ActivatedKeeps(mu, nx, u, s, traffic, fw);
      Activate(s, traffic);
    }

    method Activate(s: nat, traffic: int)
      requires s in mu.stas
      modifies this`mu
      ensures mu == Activated(old(mu), s, traffic)
    {
      var sta := mu.stas[s];
      mu := mu.(stas := mu.stas[s := sta.(traffic := sta.traffic + traffic)]);
      if sta.lastUpdate != mu.updateCount || mu.activeSta != [] {
        mu := mu.(activeSta := ToFront(mu.activeSta, s));
      }
    }

    /** aml_mu_group_init */
    constructor (nx: nat, u: nat)
      requires nx >= 1 && u >= 2
      ensures Valid() && this.nx == nx && this.u == u && InTouch(mu, fw)
      ensures mu.stas == map[] && mu.groupCnt == 0 && mu.updateCount == 1 && mu.activeSta == mu.updateSta == []
      ensures |mu.activeGroups| == nx && forall i :: 0 <= i < nx ==> mu.activeGroups[i] == nx - i
    {
      var groups: map<nat, Group> := map[];
      var list: seq<nat> := [];
      var i := 0;
      while i < nx
        invariant i <= nx && |list| == i && (forall k :: 0 <= k < i ==> list[k] == i - k)
        invariant forall g :: g in groups <==> 1 <= g <= i
        invariant forall g :: g in groups ==> groups[g] == Group(0, seq(u, j => Free))
      {
        groups := groups[i + 1 := Group(0, seq(u, j => Free))];
        list := [i + 1] + list;
        i := i + 1;
      }
      this.nx, this.u := nx, u;
      mu := Mu(groups, map[], list, [], [], 0, 1);
      fw, made := map[], [];
      new;
      EmptyConsistent(mu, nx, u);
    }

    /** One operation that breaks no pair: the tables stay consistent and the firmware in
        touch.  The firmware forgets a station that leaves. */
    method Perform(op: Op)
      requires Valid() && InTouch(mu, fw) && Possible(mu, op) && !Breaks(mu, op)
      modifies this
      ensures Valid() && InTouch(mu, fw)
    {
      match op {
        case Join(s, su) => StaInit(s, su);
        case Traffic(s, n) => SetActiveSta(s, n);
        case Use(g) => MoveHead(g);
        case Run(list) => {
          ghost var order := Work(list);
        }
        case Leave(s) => Depart(s);
      }
    }

    method Depart(s: nat)
      requires Valid() && InTouch(mu, fw) && s in mu.stas && PairGroups(mu, s) == {}
      modifies this
      ensures Valid() && InTouch(mu, fw)
    {
      ghost var m0 := mu;
      StaDel(s);
      Forgotten(m0, mu, s, fw);
      fw := fw[s := {}];
    }

    /** Any sequence of operations, up to the first that breaks a pair; what is not possible is
        passed over.  The tables are consistent and the firmware in touch throughout. */
    method Serve(ops: seq<Op>) returns (done: nat)
      requires Valid() && InTouch(mu, fw)
      modifies this
      ensures Valid() && InTouch(mu, fw) && done <= |ops|
      ensures done < |ops| ==> Breaks(mu, ops[done])
    {
      done := 0;
      while done < |ops| && !Breaks(mu, ops[done])
        invariant done <= |ops| && Valid() && InTouch(mu, fw)
      {
        if Possible(mu, ops[done]) {
          Perform(ops[done]);
        }
        done := done + 1;
      }
    }
  }

  /** The stations are those of the active list, with traffic of 60, and none is in a group. */
  ghost predicate Early(m: Mu, active: seq<nat>) {
    && m.activeSta == active && m.updateCount != 0
    && (forall t :: t in m.stas <==> t in active)
    && (forall t :: t in m.stas ==> m.stas[t].groups == {} && m.stas[t].traffic == 60)
  }

  lemma EarlyApart(m: Mu, active: seq<nat>)
    requires Early(m, active)
    ensures AllApart(m, active)
  {
  }

  /** A station joins and has traffic. */
  method Arrive(m: MuInfo, s: nat, ghost before: seq<nat>, ghost active: seq<nat>)
    requires m.Valid() && InTouch(m.mu, m.fw) && Early(m.mu, before) && s !in before && active == [s] + before
    modifies m
    ensures m.Valid() && InTouch(m.mu, m.fw) && Early(m.mu, active)
  {
    WithoutAbsent(before, s);
    m.StaInit(s, false);
    m.SetActiveSta(s, 60);
  }

  /** Two stations arrive at an allocator with two groups of two. */
  method TwoArrive() returns (m: MuInfo)
    ensures fresh(m) && m.nx == m.u == 2 && m.Valid() && InTouch(m.mu, m.fw) && Early(m.mu, [2, 1])
  {
    m := new MuInfo(2, 2);
    Arrive(m, 1, [], [1]);
    Arrive(m, 2, [1], [2, 1]);
  }

  /** With a third one active, only one group is created, for the first two of the list; the
      last one is left apart from both. */
  method LeftApart() returns (m: MuInfo)
    ensures fresh(m) && m.nx == m.u == 2 && m.Valid() && |m.made| <= 1
    ensures Share(m.mu, 3, 2) && !Share(m.mu, 3, 1) && !Share(m.mu, 2, 1)
  {
    m := TwoArrive();
    Arrive(m, 3, [2, 1], [3, 2, 1]);
    RunOfThree(m, [3, 2, 1]);
  }

  method RunOfThree(m: MuInfo, ghost active: seq<nat>)
    requires m.nx == m.u == 2 && m.Valid() && Early(m.mu, active) && active == [3, 2, 1]
    modifies m
    ensures m.Valid() && |m.made| <= 1
    ensures Share(m.mu, 3, 2) && !Share(m.mu, 3, 1) && !Share(m.mu, 2, 1)
  {
    EarlyApart(m.mu, active);
    ghost var m0 := m.mu;
    ghost var order := m.Work([1, 2, 3]);
    OnlyFirst(m0, m.mu, active);
  }

  lemma OnlyFirst(m0: Mu, m: Mu, active: seq<nat>)
    requires SharesQuota(m0, m, 2, 2) && m0.activeSta == active == [3, 2, 1] && AllApart(m0, active)
    ensures Share(m, 3, 2) && !Share(m, 3, 1) && !Share(m, 2, 1)
  {
    assert active[1..] == [2, 1] && active[1..][1..] == [1];
    var ps := PairList(active);
    assert ps[0] == (3, 2) && ps[1] == (3, 1);
    assert PairList([2, 1])[0] == (2, 1) && ps[2] == PairList([2, 1])[0];
    assert Quota(2, 3) == 1;
  }

  /** Without the third one they are put in a group; then one of them leaves.  The group keeps
      the other in a slot, with a counter that says it has none, and the firmware still has it
      there. */
  method PairBreaks() returns (m: MuInfo, ghost m0: Mu, ghost g: nat)
    ensures fresh(m) && Consistent(m0, 2, 2) && Deleted(m0, m.mu, 1) && !Consistent(m.mu, 2, 2)
    ensures g in m.mu.groups && m.mu.groups[g].userCnt == 0 && Filled(m.mu.groups[g].users) == 1
    ensures !InTouchBut(m.mu, m.fw, 1)
  {
    m := TwoArrive();
    m0, g := RunOfTwo(m, [2, 1]);
    OneLeaves(m, g);
  }

  /** After the run they are a pair, and the firmware knows. */
  method RunOfTwo(m: MuInfo, ghost active: seq<nat>) returns (ghost m0: Mu, ghost g: nat)
    requires m.nx == m.u == 2 && m.Valid() && Early(m.mu, active) && active == [2, 1] && InTouch(m.mu, m.fw)
    modifies m
    ensures m.mu == m0 && m.Valid() && InTouch(m0, m.fw) && 1 in m0.stas && g in PairGroups(m0, 1) && Missed(m0, 1)
  {
    ghost var order := m.Work([1, 2]);
    m0 := m.mu;
    g := OnePair(m0, active);
  }

  /** The two have been given their group, and the statistics of it are what made it so. */
  method PairChosen() returns (m: MuInfo)
    ensures fresh(m) && m.nx == m.u == 2 && m.Valid() && 1 in m.mu.stas && 2 in m.mu.stas
    ensures m.mu.stas[1].group == m.mu.stas[2].group != 0
    ensures m.mu.stas[1].group in m.mu.stas[1].groups * m.mu.stas[2].groups
  {
    m := TwoArrive();
    ghost var m0 := m.mu;
    ghost var order := m.Work([1, 2]);
    ghost var g := TheirGroup(m.mu, [2, 1]);
    InUse(m.mu, 2, 2, 1, g);
    BothChosen(m0, m.mu, [1, 2], order, g);
  }

  /** A group that a station is in counts. */
  lemma InUse(m: Mu, nx: nat, u: nat, s: nat, g: nat)
    requires Consistent(m, nx, u) && s in m.stas && g in m.stas[s].groups
    ensures g in m.groups && m.groupCnt != 0
  {
    assert Used(s) in m.groups[g].users;
    var j :| 0 <= j < |m.groups[g].users| && m.groups[g].users[j] == Used(s);
    assert j in FilledAt(m.groups[g].users);
    assert g in NonEmpty(m.groups);
  }

  lemma BothChosen(m0: Mu, m: Mu, list: seq<nat>, order: seq<nat>, g: nat)
    requires Consistent(m, 2, 2) && Early(m0, [2, 1]) && Together(m, 2, 1, g) && g in m.groups && list == [1, 2]
    requires RanksBusy(m0, m, list, 2, order) && Apportioned(m, list, 2, order)
    ensures m.stas[1].group == m.stas[2].group != 0 && m.stas[1].group in m.stas[1].groups * m.stas[2].groups
  {
    EarlyBusy(m0, m, g);
    assert 1 in list && 2 in list && TwoBusy(m0, m, list, g);
    assert g in order;
    var h := order[0];
    FirstHeld(m, list, order);
    BothMembers(m0, m, h);
  }

  lemma EarlyBusy(m0: Mu, m: Mu, g: nat)
    requires Early(m0, [2, 1]) && Together(m, 2, 1, g)
    ensures BusyMember(m0, m, 1, g) && BusyMember(m0, m, 2, g)
  {
    assert 1 in [2, 1] && 2 in [2, 1];
  }

  lemma BothMembers(m0: Mu, m: Mu, h: nat)
    requires TwoBusy(m0, m, [1, 2], h)
    ensures 1 in m.stas && 2 in m.stas && h in m.stas[1].groups && h in m.stas[2].groups
  {
  }

  lemma OnePair(m: Mu, active: seq<nat>) returns (g: nat)
    requires Consistent(m, 2, 2) && active == [2, 1] && AllTogether(m, active) && m.updateSta == []
    ensures 1 in m.stas && g in PairGroups(m, 1) && Missed(m, 1)
  {
    g := TheirGroup(m, active);
    AllPairs(m, 2, 1);
    MissedOne(m, g);
  }

  lemma TheirGroup(m: Mu, active: seq<nat>) returns (g: nat)
    requires active == [2, 1] && AllTogether(m, active)
    ensures Together(m, 2, 1, g)
  {
    assert Share(m, active[0], active[1]);
    g :| Together(m, 2, 1, g);
  }

  lemma MissedOne(m: Mu, g: nat)
    requires Together(m, 2, 1, g) && g in PairGroups(m, 1) && m.updateSta == []
    ensures Missed(m, 1)
  {
  }

  method OneLeaves(m: MuInfo, ghost g: nat)
    requires m.nx == m.u == 2 && m.Valid() && InTouch(m.mu, m.fw)
    requires 1 in m.mu.stas && g in PairGroups(m.mu, 1) && Missed(m.mu, 1)
    modifies m
    ensures Deleted(old(m.mu), m.mu, 1) && !m.Valid() && !InTouchBut(m.mu, m.fw, 1)
    ensures g in m.mu.groups && m.mu.groups[g].userCnt == 0 && Filled(m.mu.groups[g].users) == 1
  {
    ghost var m0 := m.mu;
    m.StaDel(1);
    DeletedStale(m0, m.mu, 2, 2, 1, g);
  }
}
