/** What emptying, filling, completing and replacing a group does to the allocator. */
module MuSteps {
  import opened MuModel

  /** Apart from group `g` nothing changed from `m` to `m'`: the other groups are the same,
      and so is the membership of every station in them. */
  ghost predicate OnlyGroup(m: Mu, m': Mu, g: nat) {
    && SameElse(m, m')
    && (forall h :: h in m.groups && h != g ==> m'.groups[h] == m.groups[h])
    && (forall s :: s in m.stas ==> m'.stas[s].groups - {g} == m.stas[s].groups - {g})
  }

  /** The first `i` slots of group `g` were emptied. */
  ghost predicate Clearing(m0: Mu, m: Mu, u: nat, g: nat, i: nat) {
    && i <= u && g in m0.groups && Lists(m) && Linked(m.groups, m.stas, u) && OnlyGroup(m0, m, g)
    && m.groups[g].userCnt == m0.groups[g].userCnt
    && (forall k :: 0 <= k < i ==> m.groups[g].users[k] == Free)
  }

  lemma ClearingStep(m0: Mu, m: Mu, u: nat, g: nat, i: nat, fw: map<nat, set<(nat, nat)>>)
    requires Clearing(m0, m, u, g, i) && i < u && m.groups[g].users[i].Used?
    ensures m.groups[g].users[i].sta in m.stas && Clearing(m0, Evicted(m, g, i), u, g, i + 1)
    ensures InTouch(m, fw) ==> InTouch(Evicted(m, g, i), fw)
  {
    EvictedKeeps(m, u, g, i, fw);
    EvictedOnly(m, g, i);
    OnlyGroupTwice(m0, m, Evicted(m, g, i), g);
    ClearingIs(m0, m, Evicted(m, g, i), u, g, i);
  }

  lemma EvictedOnly(m: Mu, g: nat, i: nat)
    requires g in m.groups && i < |m.groups[g].users| && m.groups[g].users[i].Used?
    requires m.groups[g].users[i].sta in m.stas
    ensures OnlyGroup(m, Evicted(m, g, i), g)
    ensures Evicted(m, g, i).groups[g] == m.groups[g].(users := m.groups[g].users[i := Free])
  {
  }

  lemma ClearingIs(m0: Mu, m: Mu, m': Mu, u: nat, g: nat, i: nat)
    requires Clearing(m0, m, u, g, i) && i < u && g in m'.groups
    requires Lists(m') && Linked(m'.groups, m'.stas, u) && OnlyGroup(m0, m', g)
    requires m'.groups[g] == m.groups[g].(users := m.groups[g].users[i := Free])
    ensures Clearing(m0, m', u, g, i + 1)
  {
  }

  /** The group whose slots were all emptied gets its counter reset. */
  ghost function Emptied(m0: Mu, m: Mu, g: nat): Mu
    requires g in m0.groups && g in m.groups
  {
    m.(groups := SetCnt(m.groups, g, 0),
       groupCnt := if m0.groups[g].userCnt != 0 then m0.groupCnt - 1 else m0.groupCnt)
  }

  lemma EmptiedCounts(m0: Mu, m: Mu, u: nat, g: nat)
    requires Counted(m0.groups) && m0.groupCnt == |NonEmpty(m0.groups)| && Clearing(m0, m, u, g, u)
    ensures Counted(Emptied(m0, m, g).groups)
    ensures Emptied(m0, m, g).groupCnt == |NonEmpty(Emptied(m0, m, g).groups)|
  {
    NoneFilled(m.groups[g].users);
    NonEmptyChange(m0.groups, SetCnt(m.groups, g, 0), g);
  }

  lemma EmptiedOut(m0: Mu, m: Mu, u: nat, g: nat)
    requires Clearing(m0, m, u, g, u)
    ensures forall s :: s in m.stas ==> g !in m.stas[s].groups
  {
    assert forall x :: x in m.groups[g].users ==> x == Free;
  }

  lemma EmptiedTold(m0: Mu, m: Mu, g: nat, fw: map<nat, set<(nat, nat)>>)
    requires g in m0.groups && g in m.groups
    ensures InTouch(m, fw) ==> InTouch(Emptied(m0, m, g), fw)
  {
    if InTouch(m, fw) { SetCntTold(m.groups, m.stas, g, 0, m.updateSta, fw); }
  }

  lemma EmptiedOnly(m0: Mu, m: Mu, g: nat)
    requires g in m0.groups && OnlyGroup(m0, m, g)
    ensures OnlyGroup(m0, Emptied(m0, m, g), g)
  {
  }

  lemma EmptiedKeeps(m0: Mu, m: Mu, nx: nat, u: nat, g: nat)
    requires Consistent(m0, nx, u) && Clearing(m0, m, u, g, u)
    ensures Consistent(Emptied(m0, m, g), nx, u) && OnlyGroup(m0, Emptied(m0, m, g), g)
  {
    EmptiedCounts(m0, m, u, g);
    SetCntLinked(m.groups, m.stas, u, g, 0);
    EmptiedOnly(m0, m, g);
  }

  /** Stations that may be put in group `g` together. */
  ghost predicate Seatable(m: Mu, u: nat, g: nat, us: seq<nat>) {
    && g in m.groups && NoDup(us) && 1 <= |us| && 2 <= m.groups[g].userCnt + |us| <= u
    && forall s :: s in us ==> s in m.stas && !m.stas[s].su && g !in m.stas[s].groups
  }

  /** The stations `us` were given group `g`, the others none. */
  ghost predicate Membership(m0: Mu, m: Mu, g: nat, us: seq<nat>) {
    && m.stas.Keys == m0.stas.Keys
    && forall s :: s in m.stas ==> m.stas[s].groups == if s in us then m0.stas[s].groups + {g} else m0.stas[s].groups
  }

  /** The first `i` of the stations `us` sit in group `g`, whose first `j` slots are filled. */
  ghost predicate Filling(m0: Mu, m: Mu, u: nat, g: nat, us: seq<nat>, i: nat, j: nat) {
    && i <= |us| && j <= u && g in m0.groups && Lists(m) && Linked(m.groups, m.stas, u) && OnlyGroup(m0, m, g)
    && m.groups[g].userCnt == m0.groups[g].userCnt + i == Filled(m.groups[g].users)
    && FilledTo(m.groups[g].users, j) && Membership(m0, m, g, us[..i])
  }

  lemma FillingNext(m0: Mu, m: Mu, u: nat, g: nat, us: seq<nat>, i: nat, j: nat)
    requires Filling(m0, m, u, g, us, i, j) && Seatable(m0, u, g, us) && i < |us| && j < u
    ensures us[i] in m.stas && !m.stas[us[i]].su && g !in m.stas[us[i]].groups && us[i] !in us[..i]
  {
    assert us[i] in us;
  }

  lemma FillingSeat(m0: Mu, m: Mu, u: nat, g: nat, us: seq<nat>, i: nat, j: nat, m': Mu)
    requires Filling(m0, m, u, g, us, i, j) && i < |us| && j < u && m.groups[g].users[j] == Free
    requires us[i] in m.stas && !m.stas[us[i]].su && g !in m.stas[us[i]].groups && us[i] !in us[..i]
    requires m' == Seated(m, g, j, us[i])
    ensures Filling(m0, m', u, g, us, i + 1, j + 1)
  {
    var s := us[i];
    SeatedKeeps(m, u, g, j, s);
    FillingSlots(m0, m, g, j, s);
    SeatedFrame(m, g, j, s);
    FillingTable(m0, m, m', g, us, i);
    FillingIs(m0, m', u, g, us, i + 1, j + 1);
  }

  lemma FillingRoom(m0: Mu, m: Mu, u: nat, g: nat, us: seq<nat>, i: nat, j: nat)
    requires Filling(m0, m, u, g, us, i, j) && Seatable(m0, u, g, us) && i < |us|
    ensures g in m.groups && |m.groups[g].users| == u && Filled(m.groups[g].users) < u && j <= u
    ensures FilledTo(m.groups[g].users, j)
  {
  }

  lemma FillingMore(m0: Mu, m: Mu, u: nat, g: nat, us: seq<nat>, i: nat, from: nat, j: nat)
    requires Filling(m0, m, u, g, us, i, from) && j < u && |m.groups[g].users| == u
    requires FilledTo(m.groups[g].users, j)
    ensures Filling(m0, m, u, g, us, i, j)
  {
  }

  /** The group was opened if it had no users, and the firmware missed nothing so far. */
  ghost predicate Seating(m0: Mu, m: Mu, u: nat, g: nat, us: seq<nat>, i: nat, j: nat, fw: map<nat, set<(nat, nat)>>) {
    && Filling(m0, m, u, g, us, i, j) && m.groupCnt == Opened(m0, g).groupCnt
    && (InTouch(m0, fw) ==> InTouch(m, fw))
  }

  lemma SeatingRoom(m0: Mu, m: Mu, u: nat, g: nat, us: seq<nat>, i: nat, j: nat, fw: map<nat, set<(nat, nat)>>)
    requires Seating(m0, m, u, g, us, i, j, fw) && Seatable(m0, u, g, us) && i < |us|
    ensures g in m.groups && |m.groups[g].users| == u && Filled(m.groups[g].users) < u && j <= u
    ensures FilledTo(m.groups[g].users, j)
  {
    FillingRoom(m0, m, u, g, us, i, j);
  }

  lemma SeatingStep(m0: Mu, m: Mu, u: nat, g: nat, us: seq<nat>, i: nat, from: nat, j: nat,
                    fw: map<nat, set<(nat, nat)>>)
    requires Seating(m0, m, u, g, us, i, from, fw) && Seatable(m0, u, g, us) && i < |us| && j < u
    requires |m.groups[g].users| == u && m.groups[g].users[j] == Free
    requires FilledTo(m.groups[g].users, j)
    ensures us[i] in m.stas && Seating(m0, Seated(m, g, j, us[i]), u, g, us, i + 1, j + 1, fw)
  {
    FillingMore(m0, m, u, g, us, i, from, j);
    FillingNext(m0, m, u, g, us, i, j);
    FillingSeat(m0, m, u, g, us, i, j, Seated(m, g, j, us[i]));
    SeatedTold(m, g, j, us[i], fw);
  }

  lemma FillingTable(m0: Mu, m: Mu, m': Mu, g: nat, us: seq<nat>, i: nat)
    requires OnlyGroup(m0, m, g) && SameElse(m, m') && i < |us| && us[i] in m.stas && us[i] !in us[..i]
    requires forall h :: h in m.groups && h != g ==> m'.groups[h] == m.groups[h]
    requires Membership(m0, m, g, us[..i])
    requires m'.stas[us[i]].groups == m.stas[us[i]].groups + {g}
    requires forall t :: t in m.stas && t != us[i] ==> m'.stas[t] == m.stas[t]
    ensures OnlyGroup(m0, m', g)
    ensures Membership(m0, m', g, us[..i + 1])
  {
    FillingFrame(m0, m, m', g, us[i]);
    FillingMembers(m0, m, m', g, us, i);
  }

  lemma FillingSlots(m0: Mu, m: Mu, g: nat, j: nat, s: nat)
    requires g in m0.groups && g in m.groups && s in m.stas && j < |m.groups[g].users|
    requires m.groups[g].users[j] == Free && m.groups[g].userCnt == Filled(m.groups[g].users)
    requires FilledTo(m.groups[g].users, j)
    ensures
      var after := Seated(m, g, j, s).groups[g];
      && after.userCnt == m.groups[g].userCnt + 1 == Filled(after.users)
      && |after.users| == |m.groups[g].users| && FilledTo(after.users, j + 1)
  {
    FilledUpdate(m.groups[g].users, j, Used(s));
  }

  lemma FillingIs(m0: Mu, m: Mu, u: nat, g: nat, us: seq<nat>, i: nat, j: nat)
    requires i <= |us| && j <= u && g in m0.groups && Lists(m) && Linked(m.groups, m.stas, u) && OnlyGroup(m0, m, g)
    requires m.groups[g].userCnt == m0.groups[g].userCnt + i == Filled(m.groups[g].users)
    requires FilledTo(m.groups[g].users, j)
    requires Membership(m0, m, g, us[..i])
    ensures Filling(m0, m, u, g, us, i, j)
  {
  }

  lemma FillingMembers(m0: Mu, m: Mu, m': Mu, g: nat, us: seq<nat>, i: nat)
    requires i < |us| && us[i] !in us[..i] && us[i] in m.stas && m'.stas.Keys == m.stas.Keys == m0.stas.Keys
    requires Membership(m0, m, g, us[..i])
    requires m'.stas[us[i]].groups == m.stas[us[i]].groups + {g}
    requires forall t :: t in m.stas && t != us[i] ==> m'.stas[t] == m.stas[t]
    ensures Membership(m0, m', g, us[..i + 1])
  {
    assert us[..i + 1] == us[..i] + [us[i]];
  }

  lemma FillingCounts(m0: Mu, m: Mu, g: nat)
    requires g in m0.groups && Counted(m0.groups) && m0.groupCnt == |NonEmpty(m0.groups)|
    requires OnlyGroup(m0, m, g) && m.groups[g].userCnt == Filled(m.groups[g].users) >= 2
    requires m.groupCnt == if m0.groups[g].userCnt == 0 then m0.groupCnt + 1 else m0.groupCnt
    ensures Counted(m.groups) && m.groupCnt == |NonEmpty(m.groups)|
  {
    NonEmptyChange(m0.groups, m.groups, g);
  }

  /** The allocator with the group counted if it is about to get its first users. */
  function Opened(m: Mu, g: nat): Mu
    requires g in m.groups
  {
    if m.groups[g].userCnt == 0 then m.(groupCnt := m.groupCnt + 1) else m
  }

  lemma SeatingStarts(m: Mu, nx: nat, u: nat, g: nat, us: seq<nat>, fw: map<nat, set<(nat, nat)>>)
    requires Consistent(m, nx, u) && Seatable(m, u, g, us)
    ensures Seating(m, Opened(m, g), u, g, us, 0, 0, fw)
  {
    OpenedOnly(m, g);
    FillingIs(m, Opened(m, g), u, g, us, 0, 0);
  }

  lemma OpenedOnly(m: Mu, g: nat)
    requires g in m.groups
    ensures OnlyGroup(m, Opened(m, g), g) && Membership(m, Opened(m, g), g, [])
  {
  }

  /** The stations `us` were added to group `g`. */
  ghost predicate Added(m0: Mu, m: Mu, g: nat, us: seq<nat>) {
    && OnlyGroup(m0, m, g) && g in m0.groups && m.groups[g].userCnt == m0.groups[g].userCnt + |us|
    && Membership(m0, m, g, us)
  }

  lemma SeatingDone(m0: Mu, m: Mu, nx: nat, u: nat, g: nat, us: seq<nat>, end: nat, fw: map<nat, set<(nat, nat)>>)
    requires Consistent(m0, nx, u) && Seatable(m0, u, g, us) && Seating(m0, m, u, g, us, |us|, end, fw)
    ensures Consistent(m, nx, u) && Added(m0, m, g, us) && (InTouch(m0, fw) ==> InTouch(m, fw))
  {
    FillingCounts(m0, m, g);
    AddedIs(m0, m, u, g, us, end);
  }

  lemma AddedIs(m0: Mu, m: Mu, u: nat, g: nat, us: seq<nat>, end: nat)
    requires Filling(m0, m, u, g, us, |us|, end)
    ensures Added(m0, m, g, us)
  {
    assert us[..|us|] == us;
  }

  lemma FillingFrame(m0: Mu, m: Mu, m': Mu, g: nat, s: nat)
    requires OnlyGroup(m0, m, g) && SameElse(m, m') && s in m.stas
    requires forall h :: h in m.groups && h != g ==> m'.groups[h] == m.groups[h]
    requires m'.stas[s].groups == m.stas[s].groups + {g}
    requires forall t :: t in m.stas && t != s ==> m'.stas[t] == m.stas[t]
    ensures OnlyGroup(m0, m', g)
  {
    assert (m.stas[s].groups + {g}) - {g} == m.stas[s].groups - {g};
  }

  /** The active stations and the number of the run are left alone. */
  ghost predicate KeepsActive(m: Mu, m': Mu) {
    m'.activeSta == m.activeSta && m'.updateCount == m.updateCount && RestSame(m.stas, m'.stas)
  }

  /** What becomes of an attempt at a group for the stations `us`: a group they share is used
      again; else, if groups have more than two users, one that has room is completed; else
      the least recently used one is replaced. */
  ghost predicate Outcome(m0: Mu, m: Mu, u: nat, us: seq<nat>, g: nat, created: bool)
    requires forall s :: s in us ==> s in m0.stas
  {
    if exists h :: InAll(m0.stas, us, h) then !created && Reused(m0, m, us, g)
    else if u > 2 && exists h :: Completable(m0, u, us, h) then !created && Completed(m0, m, u, us, g)
    else created && Replaced(m0, m, us, g)
  }

  lemma OutcomeReused(m0: Mu, m: Mu, u: nat, us: seq<nat>, g: nat)
    requires (forall s :: s in us ==> s in m0.stas) && Reused(m0, m, us, g)
    ensures Outcome(m0, m, u, us, g, false) && KeepsActive(m0, m)
  {
    assert InAll(m0.stas, us, g);
  }

  lemma OutcomeCompleted(m0: Mu, m: Mu, u: nat, us: seq<nat>, g: nat)
    requires (forall s :: s in us ==> s in m0.stas) && Completed(m0, m, u, us, g) && u > 2
    requires NoneShared(m0.stas, us)
    ensures Outcome(m0, m, u, us, g, false) && KeepsActive(m0, m)
  {
    assert Completable(m0, u, us, g);
  }

  lemma OutcomeReplaced(m0: Mu, m: Mu, u: nat, us: seq<nat>, g: nat)
    requires (forall s :: s in us ==> s in m0.stas) && Replaced(m0, m, us, g)
    requires NoneShared(m0.stas, us)
    requires u > 2 ==> NoRoom(m0, u, us)
    ensures Outcome(m0, m, u, us, g, true) && KeepsActive(m0, m)
  {
  }

  /** Group `g` becomes the one used last; `m` is otherwise `m0` with a change to `g` only. */
  ghost predicate Chosen(m0: Mu, m: Mu, g: nat) {
    && g in m0.groups && m.activeGroups == ToFront(m0.activeGroups, g)
    && OnlyGroup(m0, m.(activeGroups := m0.activeGroups), g)
  }

  /** A group that the stations share is used again. */
  ghost predicate Reused(m0: Mu, m: Mu, us: seq<nat>, g: nat)
    requires forall s :: s in us ==> s in m0.stas
  {
    InAll(m0.stas, us, g) && m == m0.(activeGroups := ToFront(m0.activeGroups, g))
  }

  /** A group that has one of the stations gets the others too. */
  ghost predicate Completed(m0: Mu, m: Mu, u: nat, us: seq<nat>, g: nat)
    requires forall s :: s in us ==> s in m0.stas
  {
    && Completable(m0, u, us, g) && Chosen(m0, m, g)
    && forall s :: s in m0.stas ==>
         m.stas[s].groups == if s in us then m0.stas[s].groups + {g} else m0.stas[s].groups
  }

  /** The group least recently used loses its users and gets the stations instead. */
  ghost predicate Replaced(m0: Mu, m: Mu, us: seq<nat>, g: nat) {
    && m0.activeGroups != [] && g == m0.activeGroups[|m0.activeGroups| - 1] && Chosen(m0, m, g)
    && forall s :: s in m0.stas ==>
         m.stas[s].groups == if s in us then m0.stas[s].groups + {g} else m0.stas[s].groups - {g}
  }

  lemma MovedHead(m: Mu, g: nat, nx: nat, u: nat, fw: map<nat, set<(nat, nat)>>)
    requires Consistent(m, nx, u) && g in m.groups
    ensures
      var m' := m.(activeGroups := ToFront(m.activeGroups, g));
      && Consistent(m', nx, u) && (InTouch(m, fw) ==> InTouch(m', fw))
      && m'.activeGroups[0] == g && |m'.activeGroups| == |m.activeGroups|
  {
    ToFrontNoDup(m.activeGroups, g);
  }

  /** A group with a member has at least two. */
  lemma HasMember(m: Mu, nx: nat, u: nat, us: seq<nat>, g: nat)
    requires Consistent(m, nx, u) && Candidates(m, u, us) && InSome(m.stas, us, g)
    ensures g in m.groups && m.groups[g].userCnt >= 2
  {
    var k :| 0 <= k < |us| && g in m.stas[us[k]].groups;
    assert us[k] in us;
    var users := m.groups[g].users;
    assert Used(us[k]) in users;
    var j :| 0 <= j < |users| && users[j] == Used(us[k]);
    assert j in FilledAt(users);
  }

  /** No group of `avail` above `g` can be completed. */
  ghost predicate NoneAbove(m: Mu, u: nat, us: seq<nat>, avail: set<nat>, nx: nat, g: nat)
    requires forall s :: s in us ==> s in m.stas
  {
    forall h :: g < h <= nx && h in avail ==> !Completable(m, u, us, h)
  }

  lemma NoneNext(m: Mu, u: nat, us: seq<nat>, avail: set<nat>, nx: nat, g: nat, next: nat)
    requires forall s :: s in us ==> s in m.stas
    requires NoneAbove(m, u, us, avail, nx, g) && !Completable(m, u, us, g)
    requires next < g && forall h :: next < h < g ==> h !in avail
    ensures NoneAbove(m, u, us, avail, nx, next)
  {
  }

  lemma NoneAtAll(m: Mu, nx: nat, u: nat, us: seq<nat>, avail: set<nat>)
    requires Sized(m, nx, u) && forall s :: s in us ==> s in m.stas
    requires NoneAbove(m, u, us, avail, nx, 0) && forall h :: h in avail <==> InSome(m.stas, us, h)
    ensures NoRoom(m, u, us)
  {
  }

  lemma NoneAvail(m: Mu, u: nat, us: seq<nat>, avail: set<nat>)
    requires forall s :: s in us ==> s in m.stas
    requires avail == {} && forall h :: h in avail <==> InSome(m.stas, us, h)
    ensures NoRoom(m, u, us)
  {
  }

  lemma SomeMissing(m: Mu, u: nat, us: seq<nat>, g: nat)
    requires Candidates(m, u, us) && !InAll(m.stas, us, g)
    ensures |Missing(m.stas, us, g)| >= 1
  {
    var k :| 0 <= k < |us| && g !in m.stas[us[k]].groups;
    assert us[k] in Missing(m.stas, us, g);
  }

  lemma CompletedIs(m0: Mu, m: Mu, m': Mu, u: nat, us: seq<nat>, us2: seq<nat>, g: nat)
    requires Candidates(m0, u, us) && Completable(m0, u, us, g) && us2 == Missing(m0.stas, us, g)
    requires OnlyGroup(m0, m, g) && m' == m.(activeGroups := ToFront(m.activeGroups, g))
    requires forall s :: s in m.stas ==>
               m.stas[s].groups == if s in us2 then m0.stas[s].groups + {g} else m0.stas[s].groups
    ensures Completed(m0, m', u, us, g)
  {
    assert m'.(activeGroups := m0.activeGroups) == m;
  }

  lemma OnlyGroupTwice(m0: Mu, m1: Mu, m2: Mu, g: nat)
    requires OnlyGroup(m0, m1, g) && OnlyGroup(m1, m2, g)
    ensures OnlyGroup(m0, m2, g)
  {
  }

  lemma ReplacedMembers(m0: Mu, m1: Mu, m2: Mu, us: seq<nat>, g: nat)
    requires m1.stas.Keys == m0.stas.Keys == m2.stas.Keys
    requires forall s :: s in m0.stas ==> m1.stas[s].groups - {g} == m0.stas[s].groups - {g} && g !in m1.stas[s].groups
    requires forall s :: s in m1.stas ==>
               m2.stas[s].groups == if s in us then m1.stas[s].groups + {g} else m1.stas[s].groups
    ensures forall s :: s in m0.stas ==>
      m2.stas[s].groups == if s in us then m0.stas[s].groups + {g} else m0.stas[s].groups - {g}
  {
    forall s | s in m0.stas
      ensures m1.stas[s].groups == m0.stas[s].groups - {g}
    {
      assert m1.stas[s].groups == m1.stas[s].groups - {g};
    }
  }

  lemma ReplacedIs(m0: Mu, m: Mu, m': Mu, us: seq<nat>, g: nat)
    requires m0.activeGroups != [] && g == m0.activeGroups[|m0.activeGroups| - 1] && g in m0.groups
    requires OnlyGroup(m0, m, g) && m' == m.(activeGroups := ToFront(m.activeGroups, g))
    requires forall s :: s in m0.stas ==>
               m.stas[s].groups == if s in us then m0.stas[s].groups + {g} else m0.stas[s].groups - {g}
    ensures Replaced(m0, m', us, g)
  {
    assert m'.(activeGroups := m0.activeGroups) == m;
  }

  lemma ReplacedSeatable(m0: Mu, m: Mu, u: nat, us: seq<nat>, g: nat)
    requires Candidates(m0, u, us) && g in m.groups && m.groups[g].userCnt == 0 && RestSame(m0.stas, m.stas)
    requires forall s :: s in m.stas ==> g !in m.stas[s].groups
    ensures Seatable(m, u, g, us)
  {
  }

  // ---------------------------------------------------------------- starting

  /** All groups empty and no stations. */
  lemma EmptyConsistent(m: Mu, nx: nat, u: nat)
    requires nx >= 1 && u >= 2 && m.stas == map[] && m.activeSta == [] && m.updateSta == [] && m.groupCnt == 0
    requires forall g :: g in m.groups <==> 1 <= g <= nx
    requires forall g :: g in m.groups ==> m.groups[g].userCnt == 0 && m.groups[g].users == seq(u, j => Free)
    requires |m.activeGroups| == nx && forall i :: 0 <= i < nx ==> m.activeGroups[i] == nx - i
    ensures Consistent(m, nx, u)
  {
    forall g | 1 <= g <= nx
      ensures g in m.activeGroups
    {
      assert m.activeGroups[nx - g] == g;
    }
    forall g | g in m.groups {
      NoneFilled(m.groups[g].users);
    }
    assert NonEmpty(m.groups) == {};
  }

  lemma NewSta(m: Mu, nx: nat, u: nat, s: nat, su: bool, fw: map<nat, set<(nat, nat)>>)
    requires Consistent(m, nx, u)
    requires s in m.stas ==> m.stas[s].groups == {} && s !in m.activeSta && s !in m.updateSta
    ensures
      var m' := m.(stas := m.stas[s := Sta({}, 0, su, 0, 0, 0)]);
      && Consistent(m', nx, u)
      && ((forall t :: t in m.stas && t != s && t !in m.updateSta ==> Heard(fw, t) == Places(m.groups, m.stas, t))
          ==> InTouch(m', fw[s := {}]))
  {
    var x := Sta({}, 0, su, 0, 0, 0);
    var stas' := m.stas[s := x];
    NewLinked(m.groups, m.stas, u, s, x);
    forall t | t in m.stas && t != s
      ensures Places(m.groups, stas', t) == Places(m.groups, m.stas, t)
    {
      assert stas'[t].groups == m.stas[t].groups;
    }
    assert Places(m.groups, stas', s) == {};
  }

  lemma NewLinked(groups: map<nat, Group>, stas: map<nat, Sta>, u: nat, s: nat, x: Sta)
    requires Linked(groups, stas, u) && (s in stas ==> stas[s].groups == {}) && x.groups == {} && x.cnt == 0
    ensures Linked(groups, stas[s := x], u)
  {
    forall g | g in groups
      ensures Used(s) !in groups[g].users
    {
    }
  }

  // ---------------------------------------------------------------- activity

  /** A station has traffic: it goes to the head of the active list, unless it was in the
      last run and no other station has been active since. */
  function Activated(m: Mu, s: nat, traffic: int): Mu
    requires s in m.stas
  {
    var sta := m.stas[s];
    m.(stas := m.stas[s := sta.(traffic := sta.traffic + traffic)],
       activeSta :=
         if sta.lastUpdate != m.updateCount || m.activeSta != [] then ToFront(m.activeSta, s) else m.activeSta)
  }

  lemma ActivatedKeeps(m: Mu, nx: nat, u: nat, s: nat, traffic: int, fw: map<nat, set<(nat, nat)>>)
    requires Consistent(m, nx, u) && s in m.stas && !m.stas[s].su
    ensures
      var m' := Activated(m, s, traffic);
      Consistent(m', nx, u) && (InTouch(m, fw) ==> InTouch(m', fw))
  {
    SetStaKeeps(m, nx, u, s, m.stas[s].(traffic := m.stas[s].traffic + traffic), fw);
    ToFrontNoDup(m.activeSta, s);
  }

  /** The traffic of the station is added up, and that of the others is not touched; the
      station is first on the active list, before the others as they were, unless it was in
      the last run and the list is empty. */
  lemma ActivatedExactly(m: Mu, s: nat, traffic: int)
    requires s in m.stas && NoDup(m.activeSta)
    ensures
      var m' := Activated(m, s, traffic);
      && m'.stas.Keys == m.stas.Keys
      && m'.stas[s].traffic == m.stas[s].traffic + traffic
      && (forall t :: t in m.stas && t != s ==> m'.stas[t] == m.stas[t])
      && (m.stas[s].lastUpdate == m.updateCount && m.activeSta == [] ==> m'.activeSta == [])
      && (m.stas[s].lastUpdate != m.updateCount || m.activeSta != [] ==>
            && m'.activeSta != [] && m'.activeSta[0] == s && NoDup(m'.activeSta)
            && forall t :: t in m'.activeSta <==> t == s || t in m.activeSta)
  {
    ToFrontNoDup(m.activeSta, s);
  }
}
