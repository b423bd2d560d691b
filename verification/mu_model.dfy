/** MU groups and stations as values: which station sits in which slot of which group, and
    the bitmaps and counters that repeat it. */
module MuModel {
  import opened Collections

  datatype Slot = Free | Used(sta: nat)

  /** A group: its user counter and its table of users. */
  datatype Group = Group(userCnt: int, users: seq<Slot>)

  /** A station: the groups of its bitmap, the count of them, whether it only takes part in
      single-user transmission, and what the traffic statistics need. */
  datatype Sta = Sta(groups: set<nat>, cnt: int, su: bool, traffic: int, group: nat, lastUpdate: nat)

  /** The allocator: groups by identifier, stations, the list of groups from the one used
      last, the stations active since the last run, those to update in the firmware, the
      number of groups in use and the number of the run. */
  datatype Mu = Mu(
    groups: map<nat, Group>,
    stas: map<nat, Sta>,
    activeGroups: seq<nat>,
    activeSta: seq<nat>,
    updateSta: seq<nat>,
    groupCnt: int,
    updateCount: nat)

  // ---------------------------------------------------------------- lists

  predicate NoDup(s: seq<nat>) {
    forall i, j :: 0 <= i < j < |s| ==> s[i] != s[j]
  }

  function Without(s: seq<nat>, x: nat): (r: seq<nat>)
    ensures x !in r
    ensures forall y :: y in r <==> y in s && y != x
  {
    if s == [] then [] else if s[0] == x then Without(s[1..], x) else [s[0]] + Without(s[1..], x)
  }

  /** An element is put at the head of a list, or moved there if it is on it. */
  function ToFront(s: seq<nat>, x: nat): seq<nat> {
    [x] + Without(s, x)
  }

  lemma {:induction false} WithoutNoDup(s: seq<nat>, x: nat)
    requires NoDup(s)
    ensures NoDup(Without(s, x))
    ensures |Without(s, x)| == if x in s then |s| - 1 else |s|
  {
    if s != [] {
      WithoutNoDup(s[1..], x);
      assert s == [s[0]] + s[1..];
      var r := Without(s[1..], x);
      if s[0] != x {
        assert forall i :: 0 <= i < |r| ==> r[i] in s[1..];
      }
    }
  }

  lemma ToFrontNoDup(s: seq<nat>, x: nat)
    requires NoDup(s)
    ensures NoDup(ToFront(s, x)) && ToFront(s, x)[0] == x
    ensures forall y :: y in ToFront(s, x) <==> y in s || y == x
    ensures |ToFront(s, x)| == if x in s then |s| else |s| + 1
  {
    WithoutNoDup(s, x);
    var r := Without(s, x);
    assert forall i :: 0 <= i < |r| ==> r[i] in r;
  }

  // ---------------------------------------------------------------- consistency

  /** No station sits in two slots. */
  ghost predicate OnlyOnce(users: seq<Slot>) {
    forall i, j :: 0 <= i < j < |users| && users[i].Used? ==> users[i] != users[j]
  }

  ghost function FilledAt(users: seq<Slot>): set<nat> {
    set j | 0 <= j < |users| && users[j].Used?
  }

  /** Number of filled slots. */
  ghost function Filled(users: seq<Slot>): nat {
    |FilledAt(users)|
  }

  /** Slots and bitmaps say the same: a group is in the map of a station exactly if the
      station sits in one slot of it. */
  ghost predicate Linked(groups: map<nat, Group>, stas: map<nat, Sta>, u: nat) {
    && (forall g :: g in groups ==> |groups[g].users| == u && OnlyOnce(groups[g].users))
    && (forall g, j :: g in groups && 0 <= j < u && groups[g].users[j].Used? ==> groups[g].users[j].sta in stas)
    && (forall s, g :: s in stas && g in groups ==> (g in stas[s].groups <==> Used(s) in groups[g].users))
    && (forall s :: s in stas ==> stas[s].groups <= groups.Keys && stas[s].cnt == |stas[s].groups|)
    && (forall s :: s in stas && stas[s].su ==> stas[s].groups == {})
  }

  /** The user counters are right, and no group has a single user. */
  ghost predicate Counted(groups: map<nat, Group>) {
    forall g :: g in groups ==> groups[g].userCnt == Filled(groups[g].users) != 1
  }

  ghost function NonEmpty(groups: map<nat, Group>): set<nat> {
    set g | g in groups && groups[g].userCnt > 0
  }

  lemma NonEmptyChange(groups: map<nat, Group>, groups': map<nat, Group>, g: nat)
    requires g in groups && groups'.Keys == groups.Keys
    requires forall h :: h in groups && h != g ==> groups'[h] == groups[h]
    ensures |NonEmpty(groups')| ==
      |NonEmpty(groups)| - (if groups[g].userCnt > 0 then 1 else 0) + if groups'[g].userCnt > 0 then 1 else 0
  {
    var rest := NonEmpty(groups) - {g};
    assert NonEmpty(groups) == if groups[g].userCnt > 0 then rest + {g} else rest;
    assert NonEmpty(groups') == if groups'[g].userCnt > 0 then rest + {g} else rest;
  }

  // ---------------------------------------------------------------- one slot

  function SetSlot(groups: map<nat, Group>, g: nat, j: nat, x: Slot): map<nat, Group>
    requires g in groups && j < |groups[g].users|
  {
    groups[g := groups[g].(users := groups[g].users[j := x])]
  }

  function Joined(stas: map<nat, Sta>, s: nat, g: nat): map<nat, Sta>
    requires s in stas
  {
    stas[s := stas[s].(groups := stas[s].groups + {g}, cnt := stas[s].cnt + 1)]
  }

  function Parted(stas: map<nat, Sta>, s: nat, g: nat): map<nat, Sta>
    requires s in stas
  {
    stas[s := stas[s].(groups := stas[s].groups - {g}, cnt := stas[s].cnt - 1)]
  }

  lemma FilledUpdate(users: seq<Slot>, j: nat, x: Slot)
    requires j < |users| && users[j].Used? != x.Used?
    ensures Filled(users[j := x]) == if x.Used? then Filled(users) + 1 else Filled(users) - 1
  {
    if x.Used? {
      assert FilledAt(users[j := x]) == FilledAt(users) + {j};
    } else {
      assert FilledAt(users[j := x]) == FilledAt(users) - {j};
    }
  }

  lemma SeatTaken(users: seq<Slot>, j: nat, s: nat)
    requires j < |users| && users[j] == Free && OnlyOnce(users) && Used(s) !in users
    ensures OnlyOnce(users[j := Used(s)])
    ensures forall x :: x in users[j := Used(s)] && x != Free <==> x == Used(s) || (x in users && x != Free)
  {
    var users' := users[j := Used(s)];
    assert users'[j] == Used(s);
    assert forall i :: 0 <= i < |users| && i != j ==> users'[i] == users[i];
    assert forall x :: x in users && x != Free ==> x in users' by {
      forall x | x in users && x != Free
        ensures x in users'
      {
        var i :| 0 <= i < |users| && users[i] == x;
        assert users'[i] == x;
      }
    }
  }

  lemma SeatLeft(users: seq<Slot>, j: nat)
    requires j < |users| && users[j].Used? && OnlyOnce(users)
    ensures OnlyOnce(users[j := Free])
    ensures forall x :: x in users[j := Free] && x != Free <==> x != users[j] && x in users && x != Free
  {
    var users' := users[j := Free];
    assert forall i :: 0 <= i < |users| && i != j ==> users'[i] == users[i];
    forall x | x in users && x != Free && x != users[j]
      ensures x in users'
    {
      var i :| 0 <= i < |users| && users[i] == x;
      assert users'[i] == x;
    }
    assert users[j] !in users';
  }

  /** A station takes a free slot of a group it is not in. */
  lemma FillKeeps(groups: map<nat, Group>, stas: map<nat, Sta>, u: nat, g: nat, j: nat, s: nat)
    requires Linked(groups, stas, u) && g in groups && j < u && s in stas && !stas[s].su
    requires groups[g].users[j] == Free && g !in stas[s].groups
    ensures Linked(SetSlot(groups, g, j, Used(s)), Joined(stas, s, g), u)
  {
    SeatTaken(groups[g].users, j, s);
    var groups', stas' := SetSlot(groups, g, j, Used(s)), Joined(stas, s, g);
    forall t, h | t in stas' && h in groups'
      ensures h in stas'[t].groups <==> Used(t) in groups'[h].users
    {
      assert h in stas[t].groups <==> Used(t) in groups[h].users;
    }
  }

  /** A station leaves its slot. */
  lemma ClearKeeps(groups: map<nat, Group>, stas: map<nat, Sta>, u: nat, g: nat, j: nat)
    requires Linked(groups, stas, u) && g in groups && j < u && groups[g].users[j].Used?
    ensures
      var s := groups[g].users[j].sta;
      s in stas && Linked(SetSlot(groups, g, j, Free), Parted(stas, s, g), u)
  {
    var s := groups[g].users[j].sta;
    SeatLeft(groups[g].users, j);
    assert Used(s) in groups[g].users;
    var groups', stas' := SetSlot(groups, g, j, Free), Parted(stas, s, g);
    assert g in stas[s].groups;
    forall t, h | t in stas' && h in groups'
      ensures h in stas'[t].groups <==> Used(t) in groups'[h].users
    {
      assert h in stas[t].groups <==> Used(t) in groups[h].users;
    }
  }

  /** Setting the user counter of a group. */
  function SetCnt(groups: map<nat, Group>, g: nat, n: int): map<nat, Group>
    requires g in groups
  {
    groups[g := groups[g].(userCnt := n)]
  }

  lemma SetCntLinked(groups: map<nat, Group>, stas: map<nat, Sta>, u: nat, g: nat, n: int)
    requires Linked(groups, stas, u) && g in groups
    ensures Linked(SetCnt(groups, g, n), stas, u)
  {
    var groups' := SetCnt(groups, g, n);
    assert forall h :: h in groups' ==> groups'[h].users == groups[h].users;
  }

  // ---------------------------------------------------------------- what the firmware is told

  /** The groups of a station with its position in each, as an update message lists them. */
  ghost function Places(groups: map<nat, Group>, stas: map<nat, Sta>, s: nat): set<(nat, nat)>
    requires s in stas
  {
    set g, j |
      g in groups && 0 <= j < |groups[g].users| && g in stas[s].groups && groups[g].users[j] == Used(s) :: (g, j)
  }

  lemma FillPlaces(groups: map<nat, Group>, stas: map<nat, Sta>, g: nat, j: nat, s: nat, t: nat)
    requires g in groups && j < |groups[g].users| && groups[g].users[j] == Free && s in stas && t in stas && t != s
    ensures Places(SetSlot(groups, g, j, Used(s)), Joined(stas, s, g), t) == Places(groups, stas, t)
  {
  }

  lemma ClearPlaces(groups: map<nat, Group>, stas: map<nat, Sta>, g: nat, j: nat, t: nat)
    requires g in groups && j < |groups[g].users| && groups[g].users[j].Used? && groups[g].users[j].sta in stas
    requires t in stas && t != groups[g].users[j].sta
    ensures Places(SetSlot(groups, g, j, Free), Parted(stas, groups[g].users[j].sta, g), t) == Places(groups, stas, t)
  {
  }

  /** What the firmware was told of a station; of a new one nothing. */
  ghost function Heard(fw: map<nat, set<(nat, nat)>>, s: nat): set<(nat, nat)> {
    if s in fw then fw[s] else {}
  }

  /** The firmware knows the places of every station that is not due for an update. */
  ghost predicate Told(groups: map<nat, Group>, stas: map<nat, Sta>, update: seq<nat>, fw: map<nat, set<(nat, nat)>>) {
    forall s :: s in stas && s !in update ==> Heard(fw, s) == Places(groups, stas, s)
  }

  lemma SetCntPlaces(groups: map<nat, Group>, stas: map<nat, Sta>, g: nat, n: int, s: nat)
    requires g in groups && s in stas
    ensures Places(SetCnt(groups, g, n), stas, s) == Places(groups, stas, s)
  {
    var groups' := SetCnt(groups, g, n);
    assert forall h :: h in groups' ==> groups'[h].users == groups[h].users;
  }

  lemma SetCntTold(groups: map<nat, Group>, stas: map<nat, Sta>, g: nat, n: int, update: seq<nat>,
                   fw: map<nat, set<(nat, nat)>>)
    requires g in groups && Told(groups, stas, update, fw)
    ensures Told(SetCnt(groups, g, n), stas, update, fw)
  {
    forall s | s in stas && s !in update {
      SetCntPlaces(groups, stas, g, n, s);
    }
  }

  /** Only group membership differs. */
  ghost predicate RestSame(stas: map<nat, Sta>, stas': map<nat, Sta>) {
    stas'.Keys == stas.Keys
    && forall s :: s in stas ==> stas'[s] == stas[s].(groups := stas'[s].groups, cnt := stas'[s].cnt)
  }

  lemma NoneFilled(users: seq<Slot>)
    requires forall j :: 0 <= j < |users| ==> users[j] == Free
    ensures Filled(users) == 0
  {
    assert FilledAt(users) == {};
  }

  lemma AllFilled(users: seq<Slot>)
    requires forall j :: 0 <= j < |users| ==> users[j].Used?
    ensures Filled(users) == |users|
  {
    assert FilledAt(users) == Below(|users|);
  }

  /** All slots before `j` are filled. */
  ghost predicate FilledTo(users: seq<Slot>, j: nat)
    requires j <= |users|
  {
    forall k :: 0 <= k < j ==> users[k].Used?
  }

  /** With room left, a filled slot after filled slots only is not the last one. */
  lemma RoomAhead(users: seq<Slot>, j: nat)
    requires j < |users| && Filled(users) < |users|
    requires forall k :: 0 <= k <= j ==> users[k].Used?
    ensures j < |users| - 1
  {
    if j == |users| - 1 { AllFilled(users); }
  }

  lemma FilledAtMost(users: seq<Slot>)
    ensures Filled(users) <= |users|
  {
    SubsetSize(FilledAt(users), Below(|users|));
  }

  // ---------------------------------------------------------------- the allocator

  /** The lists hold each element once: every group, active multi-user stations, stations. */
  ghost predicate Lists(m: Mu) {
    && NoDup(m.activeGroups) && (forall g :: g in m.activeGroups <==> g in m.groups)
    && NoDup(m.activeSta) && (forall s :: s in m.activeSta ==> s in m.stas && !m.stas[s].su)
    && NoDup(m.updateSta) && (forall s :: s in m.updateSta ==> s in m.stas)
  }

  /** `nx` groups, numbered from 1, of up to `u` users. */
  ghost predicate Sized(m: Mu, nx: nat, u: nat) {
    u >= 2 && nx >= 1 && forall g :: g in m.groups <==> 1 <= g <= nx
  }

  ghost predicate Consistent(m: Mu, nx: nat, u: nat) {
    && Sized(m, nx, u) && Lists(m)
    && Linked(m.groups, m.stas, u) && Counted(m.groups) && m.groupCnt == |NonEmpty(m.groups)|
  }

  ghost predicate InTouch(m: Mu, fw: map<nat, set<(nat, nat)>>) {
    Told(m.groups, m.stas, m.updateSta, fw)
  }

  /** The firmware knows the places of every station. */
  ghost predicate AllTold(m: Mu, fw: map<nat, set<(nat, nat)>>) {
    forall s :: s in m.stas ==> Heard(fw, s) == Places(m.groups, m.stas, s)
  }

  lemma NoneDue(m: Mu, fw: map<nat, set<(nat, nat)>>)
    requires InTouch(m, fw) && m.updateSta == []
    ensures AllTold(m, fw)
  {
  }

  /** What seating and evicting leave alone. */
  ghost predicate SameElse(m: Mu, m': Mu) {
    && m' == m.(groups := m'.groups, stas := m'.stas, updateSta := m'.updateSta, groupCnt := m'.groupCnt)
    && RestSame(m.stas, m'.stas)
    && m'.groups.Keys == m.groups.Keys
  }

  /** A station is put on the update list. */
  function Marked(m: Mu, s: nat): Mu {
    m.(updateSta := ToFront(m.updateSta, s))
  }

  /** Slot `j` of group `g` is emptied. */
  function Evicted(m: Mu, g: nat, j: nat): Mu
    requires g in m.groups && j < |m.groups[g].users| && m.groups[g].users[j].Used?
    requires m.groups[g].users[j].sta in m.stas
  {
    var s := m.groups[g].users[j].sta;
    Marked(m.(groups := SetSlot(m.groups, g, j, Free), stas := Parted(m.stas, s, g)), s)
  }

  lemma EvictedKeeps(m: Mu, u: nat, g: nat, j: nat, fw: map<nat, set<(nat, nat)>>)
    requires Lists(m) && Linked(m.groups, m.stas, u) && g in m.groups && j < u && m.groups[g].users[j].Used?
    ensures m.groups[g].users[j].sta in m.stas
    ensures
      var m' := Evicted(m, g, j);
      && Lists(m') && Linked(m'.groups, m'.stas, u) && SameElse(m, m')
      && (InTouch(m, fw) ==> InTouch(m', fw))
  {
    ClearKeeps(m.groups, m.stas, u, g, j);
    var s := m.groups[g].users[j].sta;
    ToFrontNoDup(m.updateSta, s);
    forall t | t in m.stas && t != s {
      ClearPlaces(m.groups, m.stas, g, j, t);
    }
  }

  /** Station `s` takes the free slot `j` of group `g`, which counts it. */
  function Seated(m: Mu, g: nat, j: nat, s: nat): Mu
    requires g in m.groups && j < |m.groups[g].users| && s in m.stas
  {
    var groups := SetSlot(m.groups, g, j, Used(s));
    Marked(m.(groups := SetCnt(groups, g, m.groups[g].userCnt + 1), stas := Joined(m.stas, s, g)), s)
  }

  lemma SeatedFrame(m: Mu, g: nat, j: nat, s: nat)
    requires g in m.groups && j < |m.groups[g].users| && s in m.stas
    ensures
      var m' := Seated(m, g, j, s);
      && SameElse(m, m')
      && m'.groups[g] == Group(m.groups[g].userCnt + 1, m.groups[g].users[j := Used(s)])
      && (forall h :: h in m.groups && h != g ==> m'.groups[h] == m.groups[h])
      && m'.stas[s].groups == m.stas[s].groups + {g}
      && (forall t :: t in m.stas && t != s ==> m'.stas[t] == m.stas[t])
  {
  }

  lemma SeatedKeeps(m: Mu, u: nat, g: nat, j: nat, s: nat)
    requires Lists(m) && Linked(m.groups, m.stas, u) && g in m.groups && j < u && m.groups[g].users[j] == Free
    requires s in m.stas && !m.stas[s].su && g !in m.stas[s].groups
    ensures var m' := Seated(m, g, j, s); Lists(m') && Linked(m'.groups, m'.stas, u)
  {
    FillKeeps(m.groups, m.stas, u, g, j, s);
    SetCntLinked(SetSlot(m.groups, g, j, Used(s)), Joined(m.stas, s, g), u, g, m.groups[g].userCnt + 1);
    ToFrontNoDup(m.updateSta, s);
    SeatedFrame(m, g, j, s);
  }

  lemma SeatedTold(m: Mu, g: nat, j: nat, s: nat, fw: map<nat, set<(nat, nat)>>)
    requires NoDup(m.updateSta) && g in m.groups && j < |m.groups[g].users| && m.groups[g].users[j] == Free
    requires s in m.stas
    ensures InTouch(m, fw) ==> InTouch(Seated(m, g, j, s), fw)
  {
    ToFrontNoDup(m.updateSta, s);
    var groups, stas := SetSlot(m.groups, g, j, Used(s)), Joined(m.stas, s, g);
    forall t | t in m.stas && t != s
      ensures Places(SetCnt(groups, g, m.groups[g].userCnt + 1), stas, t) == Places(m.groups, m.stas, t)
    {
      FillPlaces(m.groups, m.stas, g, j, s, t);
      SetCntPlaces(groups, stas, g, m.groups[g].userCnt + 1, t);
    }
  }

  // ---------------------------------------------------------------- choosing a group

  /** The highest bit of a bitmap of groups, 0 if there is none up to `top`. */
  function Highest(map_: set<nat>, top: nat): (g: nat)
    ensures g <= top && (g > 0 ==> g in map_)
    ensures forall h :: g < h <= top ==> h !in map_
  {
    if top == 0 || top in map_ then top else Highest(map_, top - 1)
  }

  /** The stations among `us` that are not in group `g`. */
  function Missing(stas: map<nat, Sta>, us: seq<nat>, g: nat): (r: seq<nat>)
    requires forall s :: s in us ==> s in stas
    ensures forall s :: s in r <==> s in us && g !in stas[s].groups
    ensures |r| <= |us|
  {
    if us == [] then []
    else
      var front := Missing(stas, us[..|us| - 1], g);
      if g in stas[us[|us| - 1]].groups then front else front + [us[|us| - 1]]
  }

  lemma {:induction false} MissingNoDup(stas: map<nat, Sta>, us: seq<nat>, g: nat)
    requires NoDup(us) && forall s :: s in us ==> s in stas
    ensures NoDup(Missing(stas, us, g))
  {
    if us != [] {
      MissingNoDup(stas, us[..|us| - 1], g);
      var front := Missing(stas, us[..|us| - 1], g);
      assert forall i :: 0 <= i < |front| ==> front[i] in us[..|us| - 1];
    }
  }

  /** The first `n` stations of `us` are all in group `g`. */
  ghost predicate InAllOf(stas: map<nat, Sta>, us: seq<nat>, n: nat, g: nat)
    requires n <= |us| && forall s :: s in us ==> s in stas
  {
    forall k :: 0 <= k < n ==> g in stas[us[k]].groups
  }

  /** One of the first `n` stations of `us` is in group `g`. */
  ghost predicate InSomeOf(stas: map<nat, Sta>, us: seq<nat>, n: nat, g: nat)
    requires n <= |us| && forall s :: s in us ==> s in stas
  {
    exists k :: 0 <= k < n && g in stas[us[k]].groups
  }

  ghost predicate InAll(stas: map<nat, Sta>, us: seq<nat>, g: nat)
    requires forall s :: s in us ==> s in stas
  {
    InAllOf(stas, us, |us|, g)
  }

  ghost predicate InSome(stas: map<nat, Sta>, us: seq<nat>, g: nat)
    requires forall s :: s in us ==> s in stas
  {
    InSomeOf(stas, us, |us|, g)
  }

  lemma InOfNext(stas: map<nat, Sta>, us: seq<nat>, n: nat, g: nat)
    requires n < |us| && forall s :: s in us ==> s in stas
    ensures InAllOf(stas, us, n + 1, g) <==> InAllOf(stas, us, n, g) && g in stas[us[n]].groups
    ensures InSomeOf(stas, us, n + 1, g) <==> InSomeOf(stas, us, n, g) || g in stas[us[n]].groups
  {
  }

  /** Group `g` has one of the stations and room for the others. */
  ghost predicate Completable(m: Mu, u: nat, us: seq<nat>, g: nat)
    requires forall s :: s in us ==> s in m.stas
  {
    g in m.groups && InSome(m.stas, us, g) && m.groups[g].userCnt + |Missing(m.stas, us, g)| <= u
  }

  /** No group has all the stations. */
  ghost predicate NoneShared(stas: map<nat, Sta>, us: seq<nat>)
    requires forall s :: s in us ==> s in stas
  {
    forall g :: !InAll(stas, us, g)
  }

  /** No group can be completed. */
  ghost predicate NoRoom(m: Mu, u: nat, us: seq<nat>)
    requires forall s :: s in us ==> s in m.stas
  {
    forall g :: !Completable(m, u, us, g)
  }

  /** Active multi-user stations, between two and as many as a group takes. */
  ghost predicate Candidates(m: Mu, u: nat, us: seq<nat>) {
    NoDup(us) && 2 <= |us| <= u && forall s :: s in us ==> s in m.stas && !m.stas[s].su
  }

  // ---------------------------------------------------------------- other fields

  /** The fields of a station that have nothing to do with membership. */
  ghost predicate SameMembership(a: Sta, b: Sta) {
    a.groups == b.groups && a.cnt == b.cnt && a.su == b.su
  }

  lemma SetStaKeeps(m: Mu, nx: nat, u: nat, s: nat, x: Sta, fw: map<nat, set<(nat, nat)>>)
    requires Consistent(m, nx, u) && s in m.stas && SameMembership(m.stas[s], x)
    ensures
      var m' := m.(stas := m.stas[s := x]);
      Consistent(m', nx, u) && (InTouch(m, fw) ==> InTouch(m', fw))
  {
    var stas' := m.stas[s := x];
    SetStaLinked(m.groups, m.stas, u, s, x);
    forall t | t in m.stas
      ensures Places(m.groups, stas', t) == Places(m.groups, m.stas, t)
    {
      assert stas'[t].groups == m.stas[t].groups;
    }
  }

  lemma SetStaLinked(groups: map<nat, Group>, stas: map<nat, Sta>, u: nat, s: nat, x: Sta)
    requires Linked(groups, stas, u) && s in stas && SameMembership(stas[s], x)
    ensures Linked(groups, stas[s := x], u)
  {
    var stas' := stas[s := x];
    assert forall t :: t in stas ==> SameMembership(stas[t], stas'[t]);
  }

  /** Telling the firmware about the first station of the update list. */
  lemma TellFirst(m: Mu, nx: nat, u: nat, fw: map<nat, set<(nat, nat)>>)
    requires Consistent(m, nx, u) && m.updateSta != []
    ensures
      var s := m.updateSta[0];
      var m' := m.(updateSta := m.updateSta[1..]);
      && s in m.stas && Consistent(m', nx, u)
      && (InTouch(m, fw) ==> InTouch(m', fw[s := Places(m.groups, m.stas, s)]))
  {
    var s := m.updateSta[0];
    assert m.updateSta == [s] + m.updateSta[1..];
  }

  /** A list of distinct numbers from 1 to n has at most n. */
  lemma {:induction false} DistinctFits(s: seq<nat>, n: nat)
    requires NoDup(s) && forall x :: x in s ==> 1 <= x <= n
    ensures |s| <= n
    decreases n
  {
    if s != [] {
      assert s[0] in s;
      WithoutNoDup(s, n);
      DistinctFits(Without(s, n), n - 1);
    }
  }

  /** The groups of a bitmap above `g`. */
  ghost function Over(groups: set<nat>, g: nat): set<nat> {
    set h | h in groups && h > g
  }

  lemma OverNext(groups: set<nat>, g: nat, next: nat)
    requires g in groups && next < g && (forall h :: next < h < g ==> h !in groups)
    ensures Over(groups, next) == Over(groups, g) + {g}
    ensures |Over(groups, next)| == |Over(groups, g)| + 1 <= |groups|
  {
    assert Over(groups, next) == Over(groups, g) + {g};
    SubsetSize(Over(groups, next), groups);
  }

  /** A station has one place in a group. */
  lemma PlaceIs(groups: map<nat, Group>, stas: map<nat, Sta>, s: nat, g: nat, pos: nat)
    requires s in stas && g in groups && g in stas[s].groups && OnlyOnce(groups[g].users)
    requires pos < |groups[g].users| && groups[g].users[pos] == Used(s)
    ensures forall p :: p in Places(groups, stas, s) && p.0 == g <==> p == (g, pos)
  {
    forall p | p in Places(groups, stas, s) && p.0 == g
      ensures p == (g, pos)
    {
      assert groups[g].users[p.1] == Used(s);
    }
  }

  lemma SeatOf(m: Mu, nx: nat, u: nat, s: nat, g: nat)
    requires Consistent(m, nx, u) && s in m.stas && g in m.stas[s].groups
    ensures g in m.groups && OnlyOnce(m.groups[g].users) && |m.groups[g].users| == u
    ensures Used(s) in m.groups[g].users && m.stas[s].cnt == |m.stas[s].groups|
  {
  }

  /** The places of a station in the groups above `g` are listed, each once. */
  ghost predicate Reported(groups: map<nat, Group>, stas: map<nat, Sta>, s: nat, g: nat, req: seq<(nat, nat)>)
    requires s in stas
  {
    && |req| == |Over(stas[s].groups, g)|
    && forall p :: p in req <==> p in Places(groups, stas, s) && p.0 > g
  }

  lemma ReportedFrom(groups: map<nat, Group>, stas: map<nat, Sta>, s: nat, g: nat)
    requires s in stas && forall h :: h in stas[s].groups ==> h <= g
    ensures Reported(groups, stas, s, g, [])
  {
    assert Over(stas[s].groups, g) == {};
  }

  lemma ReportedNext(groups: map<nat, Group>, stas: map<nat, Sta>, s: nat, g: nat, next: nat, req: seq<(nat, nat)>,
                     pos: nat)
    requires s in stas && g in groups && g in stas[s].groups && OnlyOnce(groups[g].users)
    requires pos < |groups[g].users| && groups[g].users[pos] == Used(s)
    requires next < g && (forall h :: next < h < g ==> h !in stas[s].groups) && Reported(groups, stas, s, g, req)
    ensures |req| < |stas[s].groups| && Reported(groups, stas, s, next, req + [(g, pos)])
  {
    OverNext(stas[s].groups, g, next);
    PlaceIs(groups, stas, s, g, pos);
    forall p
      ensures p in req + [(g, pos)] <==> p in Places(groups, stas, s) && p.0 > next
    {
      assert p in Places(groups, stas, s) ==> p.0 in stas[s].groups;
    }
  }

  lemma ReportedAll(groups: map<nat, Group>, stas: map<nat, Sta>, s: nat, req: seq<(nat, nat)>)
    requires s in stas && Reported(groups, stas, s, 0, req) && 0 !in stas[s].groups
    ensures |req| == |stas[s].groups| && forall p :: p in req <==> p in Places(groups, stas, s)
  {
    assert Over(stas[s].groups, 0) == stas[s].groups;
    assert forall p :: p in Places(groups, stas, s) ==> p.0 in stas[s].groups;
  }
}
