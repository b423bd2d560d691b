/** Choosing the group each station uses: the statistics of a first pass over the stations,
    and the effect of a second pass that gives the groups out by falling traffic. */
module MuSelect {
  import opened Collections
  import opened MuModel
  import opened MuSort

  const MIN_TRAFFIC := 50

  /** Stations that count for the selection of a group. */
  predicate Busy(x: Sta) {
    x.cnt != 0 && x.traffic >= MIN_TRAFFIC
  }

  /** How many busy stations of `list` are in group `g`. */
  function NbUsers(stas: map<nat, Sta>, list: seq<nat>, g: nat): nat {
    if list == [] then 0
    else
      var s := list[|list| - 1];
      NbUsers(stas, list[..|list| - 1], g) + if s in stas && Busy(stas[s]) && g in stas[s].groups then 1 else 0
  }

  /** Their traffic. */
  function Volume(stas: map<nat, Sta>, list: seq<nat>, g: nat): int {
    if list == [] then 0
    else
      var s := list[|list| - 1];
      Volume(stas, list[..|list| - 1], g) +
      if s in stas && Busy(stas[s]) && g in stas[s].groups then stas[s].traffic else 0
  }

  lemma NbUsersNext(stas: map<nat, Sta>, list: seq<nat>, k: nat, g: nat)
    requires k < |list| && list[k] in stas
    ensures
      var counts := Busy(stas[list[k]]) && g in stas[list[k]].groups;
      && NbUsers(stas, list[..k + 1], g) == NbUsers(stas, list[..k], g) + (if counts then 1 else 0)
      && Volume(stas, list[..k + 1], g) == Volume(stas, list[..k], g) + (if counts then stas[list[k]].traffic else 0)
  {
    assert list[..k + 1][..k] == list[..k];
  }

  /** Each station of the list has no group selected or one that it is in. */
  ghost predicate Selected(m: Mu, list: seq<nat>) {
    forall s :: s in list ==> s in m.stas && (m.stas[s].group == 0 || m.stas[s].group in m.stas[s].groups)
  }

  /** The tables after the first `k` stations were counted, and of station `k` the groups
      above `top`: users and traffic of each group, and the groups with two users or more. */
  ghost predicate Tallied(stas: map<nat, Sta>, list: seq<nat>, nx: nat, k: nat, top: nat,
                          nb: seq<int>, traffic: seq<int>, order: seq<nat>)
    requires k <= |list|
  {
    && |nb| == |traffic| == nx + 1
    && (forall g :: 1 <= g <= nx ==>
          Counts(stas, list, if g > top && k < |list| then k + 1 else k, g, nb[g], traffic[g]))
    && NoDup(order) && (forall g :: g in order <==> 1 <= g <= nx && nb[g] >= 2)
  }

  ghost predicate Counts(stas: map<nat, Sta>, list: seq<nat>, k: nat, g: nat, n: int, t: int)
    requires k <= |list|
  {
    n == NbUsers(stas, list[..k], g) && t == Volume(stas, list[..k], g)
  }

  /** Groups that station `k` is not in, or does not count for, need no update. */
  lemma TallySkip(stas: map<nat, Sta>, list: seq<nat>, nx: nat, k: nat, top: nat, low: nat,
                  nb: seq<int>, traffic: seq<int>, order: seq<nat>)
    requires k < |list| && list[k] in stas && low <= top <= nx && Tallied(stas, list, nx, k, top, nb, traffic, order)
    requires forall g :: low < g <= top ==> !(Busy(stas[list[k]]) && g in stas[list[k]].groups)
    ensures Tallied(stas, list, nx, k, low, nb, traffic, order)
  {
    forall g | low < g <= top
      ensures Counts(stas, list, k + 1, g, nb[g], traffic[g])
    {
      assert Counts(stas, list, k, g, nb[g], traffic[g]);
      NbUsersNext(stas, list, k, g);
    }
  }

  lemma TallyDone(stas: map<nat, Sta>, list: seq<nat>, nx: nat, k: nat,
                  nb: seq<int>, traffic: seq<int>, order: seq<nat>)
    requires k < |list| && Tallied(stas, list, nx, k, 0, nb, traffic, order)
    ensures Tallied(stas, list, nx, k + 1, nx, nb, traffic, order)
  {
    assert forall g :: 1 <= g <= nx ==> Counts(stas, list, k + 1, g, nb[g], traffic[g]);
  }

  lemma TallyOne(stas: map<nat, Sta>, list: seq<nat>, nx: nat, k: nat, g: nat,
                 nb: seq<int>, traffic: seq<int>, order: seq<nat>)
    requires k < |list| && list[k] in stas && 1 <= g <= nx && Tallied(stas, list, nx, k, g, nb, traffic, order)
    requires Busy(stas[list[k]]) && g in stas[list[k]].groups
    ensures nb[g] >= 0
    ensures
      var order' := if nb[g] + 1 == 2 then order + [g] else order;
      && Tallied(stas, list, nx, k, g - 1, nb[g := nb[g] + 1], traffic[g := traffic[g] + stas[list[k]].traffic], order')
      && |order'| <= nx
  {
    NbUsersNext(stas, list, k, g);
    assert Counts(stas, list, k, g, nb[g], traffic[g]);
    var order' := if nb[g] + 1 == 2 then order + [g] else order;
    DistinctFits(order', nx);
  }

  /** The first `k` stations of the list start anew, the others are as they were. */
  ghost predicate Restarted(m0: Mu, m: Mu, list: seq<nat>, k: nat)
    requires k <= |list|
  {
    && m == m0.(stas := m.stas) && m.stas.Keys == m0.stas.Keys
    && (forall s :: s in m0.stas ==>
          m.stas[s] == if s in list[..k] then m0.stas[s].(traffic := 0, group := 0) else m0.stas[s])
  }

  lemma RestartedNext(m0: Mu, m: Mu, list: seq<nat>, k: nat, m': Mu)
    requires k < |list| && NoDup(list) && list[k] in m.stas && Restarted(m0, m, list, k)
    requires m' == m.(stas := m.stas[list[k] := m.stas[list[k]].(traffic := 0, group := 0)])
    ensures m.stas[list[k]] == m0.stas[list[k]] && Restarted(m0, m', list, k + 1)
  {
    assert list[..k + 1] == list[..k] + [list[k]];
    assert list[k] !in list[..k];
  }

  ghost predicate SameGroups(stas: map<nat, Sta>, stas': map<nat, Sta>) {
    stas'.Keys == stas.Keys && forall s :: s in stas ==> stas'[s].groups == stas[s].groups
  }

  /** The selection changes nothing of a station but its group, and starts the traffic count of
      those of the list anew. */
  ghost predicate SelectOnly(stas: map<nat, Sta>, stas': map<nat, Sta>, list: seq<nat>) {
    && stas'.Keys == stas.Keys
    && forall s :: s in stas ==>
         stas'[s] == stas[s].(traffic := if s in list then 0 else stas[s].traffic, group := stas'[s].group)
  }

  lemma RestartedSame(m0: Mu, m: Mu, list: seq<nat>)
    requires Restarted(m0, m, list, |list|)
    ensures SelectOnly(m0.stas, m.stas, list)
  {
    assert list[..|list|] == list;
  }

  lemma RegroupedSame(m0: Mu, m: Mu, m': Mu, list: seq<nat>)
    requires SelectOnly(m0.stas, m.stas, list) && Regrouped(m, m')
    ensures SelectOnly(m0.stas, m'.stas, list)
  {
  }

  /** Nothing but the group chosen for stations differs. */
  ghost predicate Regrouped(m0: Mu, m: Mu) {
    && m == m0.(stas := m.stas) && m.stas.Keys == m0.stas.Keys
    && forall s :: s in m0.stas ==> m.stas[s] == m0.stas[s].(group := m.stas[s].group)
  }

  lemma RegroupedTwice(m0: Mu, m1: Mu, m2: Mu)
    requires Regrouped(m0, m1) && Regrouped(m1, m2)
    ensures Regrouped(m0, m2)
  {
  }

  /** The users of the first `j` slots of group `g` were given it, the other stations not. */
  ghost predicate Assigned(m1: Mu, m: Mu, g: nat, j: nat)
    requires Regrouped(m1, m)
  {
    && g in m.groups && j <= |m.groups[g].users|
    && forall s :: s in m.stas ==>
         m.stas[s].group == if Used(s) in m.groups[g].users[..j] then g else m1.stas[s].group
  }

  lemma AssignedNext(m1: Mu, m: Mu, m': Mu, g: nat, j: nat)
    requires Regrouped(m1, m) && Assigned(m1, m, g, j) && j < |m.groups[g].users|
    requires
      var x := m.groups[g].users[j];
      if x.Used? then x.sta in m.stas && m' == m.(stas := m.stas[x.sta := m.stas[x.sta].(group := g)]) else m' == m
    ensures Regrouped(m1, m') && Assigned(m1, m', g, j + 1)
  {
    assert m.groups[g].users[..j + 1] == m.groups[g].users[..j] + [m.groups[g].users[j]];
  }

  /** Group `g` was given to all its users, and nothing else changed. */
  ghost predicate GivenTo(m1: Mu, m: Mu, g: nat) {
    && Regrouped(m1, m) && g in m.groups
    && forall s :: s in m.stas ==> m.stas[s].group == if g in m.stas[s].groups then g else m1.stas[s].group
  }

  lemma AssignedAll(m1: Mu, m: Mu, g: nat, u: nat)
    requires Regrouped(m1, m) && Assigned(m1, m, g, u) && Linked(m.groups, m.stas, u)
    ensures GivenTo(m1, m, g)
  {
    assert m.groups[g].users[..u] == m.groups[g].users;
  }

  /** Groups ranked: those with two busy stations or more, by falling traffic. */
  ghost predicate Ranked(stas: map<nat, Sta>, list: seq<nat>, nx: nat, order: seq<nat>) {
    && NoDup(order) && (forall g :: g in order <==> 1 <= g <= nx && NbUsers(stas, list, g) >= 2)
    && (forall i, j :: 0 <= i < j < |order| ==> Volume(stas, list, order[i]) >= Volume(stas, list, order[j]))
  }

  // ---------------------------------------------------------------- traffic before, membership after

  /** Traffic and the groups chosen do not differ. */
  ghost predicate SameTraffic(stas: map<nat, Sta>, stas': map<nat, Sta>) {
    && stas'.Keys == stas.Keys
    && forall s :: s in stas ==> stas'[s].traffic == stas[s].traffic && stas'[s].group == stas[s].group
  }

  lemma SameTrafficTwice(a: map<nat, Sta>, b: map<nat, Sta>, c: map<nat, Sta>)
    requires SameTraffic(a, b) && SameTraffic(b, c)
    ensures SameTraffic(a, c)
  {
  }

  /** The stations `stas` with the traffic they had in `stas0`. */
  ghost function Measured(stas0: map<nat, Sta>, stas: map<nat, Sta>): (r: map<nat, Sta>)
    requires stas.Keys == stas0.Keys
    ensures r.Keys == stas.Keys && forall s :: s in stas ==> r[s] == stas[s].(traffic := stas0[s].traffic)
  {
    map s | s in stas :: stas[s].(traffic := stas0[s].traffic)
  }

  /** What the statistics look at. */
  ghost predicate SameUse(stas: map<nat, Sta>, stas': map<nat, Sta>) {
    && stas'.Keys == stas.Keys
    && forall s :: s in stas ==>
         stas'[s].groups == stas[s].groups && stas'[s].cnt == stas[s].cnt && stas'[s].traffic == stas[s].traffic
  }

  lemma {:induction false} SameStatistics(stas: map<nat, Sta>, stas': map<nat, Sta>, list: seq<nat>, g: nat)
    requires SameUse(stas, stas')
    ensures NbUsers(stas', list, g) == NbUsers(stas, list, g) && Volume(stas', list, g) == Volume(stas, list, g)
  {
    if list != [] { SameStatistics(stas, stas', list[..|list| - 1], g); }
  }

  lemma RankedSame(stas: map<nat, Sta>, stas': map<nat, Sta>, list: seq<nat>, nx: nat, order: seq<nat>)
    requires Ranked(stas, list, nx, order) && SameUse(stas, stas')
    ensures Ranked(stas', list, nx, order)
  {
    forall g {
      SameStatistics(stas, stas', list, g);
    }
  }

  /** Station `s` had traffic of 50 or more in `m0`, and is in group `g` in `m`. */
  ghost predicate BusyMember(m0: Mu, m: Mu, s: nat, g: nat) {
    s in m0.stas && s in m.stas && m0.stas[s].traffic >= 50 && g in m.stas[s].groups
  }

  ghost predicate TwoBusy(m0: Mu, m: Mu, list: seq<nat>, g: nat) {
    exists s, t :: s in list && t in list && s != t && BusyMember(m0, m, s, g) && BusyMember(m0, m, t, g)
  }

  /** The groups that two stations or more of the list are in, with traffic of 50 or more
      each before, in the order of their traffic. */
  ghost predicate RanksBusy(m0: Mu, m: Mu, list: seq<nat>, nx: nat, order: seq<nat>) {
    && m.stas.Keys == m0.stas.Keys && NoDup(order)
    && (forall g :: g in order <==> 1 <= g <= nx && TwoBusy(m0, m, list, g))
    && Ranked(Measured(m0.stas, m.stas), list, nx, order)
  }

  lemma RanksBusyIs(m0: Mu, m1: Mu, m: Mu, list: seq<nat>, nx: nat, u: nat, order: seq<nat>)
    requires SameTraffic(m0.stas, m1.stas) && SelectOnly(m1.stas, m.stas, list) && Ranked(m1.stas, list, nx, order)
    requires Linked(m.groups, m.stas, u) && NoDup(list)
    ensures RanksBusy(m0, m, list, nx, order)
  {
    var stas := Measured(m0.stas, m.stas);
    assert SameUse(m1.stas, stas);
    RankedSame(m1.stas, stas, list, nx, order);
    forall g
      ensures NbUsers(stas, list, g) >= 2 <==> TwoBusy(m0, m, list, g)
    {
      TwoUsers(m0, m, list, u, g);
    }
  }

  lemma TwoUsers(m0: Mu, m: Mu, list: seq<nat>, u: nat, g: nat)
    requires m.stas.Keys == m0.stas.Keys && Linked(m.groups, m.stas, u) && NoDup(list)
    ensures NbUsers(Measured(m0.stas, m.stas), list, g) >= 2 <==> TwoBusy(m0, m, list, g)
  {
    var busy := BusyIn(Measured(m0.stas, m.stas), list, g);
    NbUsersIs(Measured(m0.stas, m.stas), list, g);
    forall s | s in list
      ensures s in busy <==> BusyMember(m0, m, s, g)
    {
      BusyBoth(m0, m, list, u, s, g);
    }
    if |busy| >= 2 {
      TwoOf(busy);
    } else {
      FewOf(busy);
    }
  }

  lemma BusyBoth(m0: Mu, m: Mu, list: seq<nat>, u: nat, s: nat, g: nat)
    requires m.stas.Keys == m0.stas.Keys && Linked(m.groups, m.stas, u) && s in list
    ensures s in BusyIn(Measured(m0.stas, m.stas), list, g) <==> BusyMember(m0, m, s, g)
  {
    if s in m.stas && g in m.stas[s].groups { assert m.stas[s].cnt == |m.stas[s].groups| > 0; }
  }

  lemma FewOf(a: set<nat>)
    requires |a| < 2
    ensures forall s, t :: s in a && t in a ==> s == t
  {
    forall s, t | s in a && t in a
      ensures s == t
    {
      SubsetSize({s, t}, a);
    }
  }

  lemma TwoOf(a: set<nat>)
    requires |a| >= 2
    ensures exists s, t :: s in a && t in a && s != t
  {
    var s :| s in a;
    assert |a - {s}| >= 1;
    var t :| t in a - {s};
  }

  // ---------------------------------------------------------------- counting users

  /** The busy stations of `list` in group `g`, as a set. */
  ghost function BusyIn(stas: map<nat, Sta>, list: seq<nat>, g: nat): set<nat> {
    set s | s in list && s in stas && Busy(stas[s]) && g in stas[s].groups
  }

  lemma {:induction false} NbUsersIs(stas: map<nat, Sta>, list: seq<nat>, g: nat)
    requires NoDup(list)
    ensures NbUsers(stas, list, g) == |BusyIn(stas, list, g)|
  {
    if list == [] {
      assert BusyIn(stas, list, g) == {};
    } else {
      var front, s := list[..|list| - 1], list[|list| - 1];
      NbUsersIs(stas, front, g);
      assert list == front + [s];
      assert s !in front;
      BusyNext(stas, front, s, g);
    }
  }

  lemma BusyNext(stas: map<nat, Sta>, front: seq<nat>, s: nat, g: nat)
    ensures BusyIn(stas, front + [s], g) ==
      if s in stas && Busy(stas[s]) && g in stas[s].groups then BusyIn(stas, front, g) + {s} else BusyIn(stas, front, g)
  {
  }

  /** The stations that sit in a table of users. */
  function Sitting(users: seq<Slot>): (r: set<nat>)
    ensures |r| <= |users|
    ensures forall s :: s in r <==> Used(s) in users
  {
    if users == [] then {}
    else
      var x := users[|users| - 1];
      assert users == users[..|users| - 1] + [x];
      var front := Sitting(users[..|users| - 1]);
      if x.Used? then front + {x.sta} else front
  }

  /** A group of two with two busy users has no other: both are on the list. */
  lemma PairBusy(groups: map<nat, Group>, stas: map<nat, Sta>, list: seq<nat>, g: nat)
    requires Linked(groups, stas, 2) && g in groups && NoDup(list) && NbUsers(stas, list, g) >= 2
    ensures NbUsers(stas, list, g) == 2
    ensures forall s :: s in stas && g in stas[s].groups ==> s in list
  {
    NbUsersIs(stas, list, g);
    var busy, all := BusyIn(stas, list, g), Sitting(groups[g].users);
    assert busy <= all;
    SubsetSize(busy, all);
    SubsetFull(busy, all);
  }

  lemma SomeBusy(stas: map<nat, Sta>, list: seq<nat>, g: nat)
    requires NoDup(list) && NbUsers(stas, list, g) > 0
    ensures exists s :: s in stas && g in stas[s].groups
  {
    NbUsersIs(stas, list, g);
    var s :| s in BusyIn(stas, list, g);
    assert g in stas[s].groups;
  }

  // ---------------------------------------------------------------- giving groups out

  /** Stations of the list have no group or one of `given`. */
  ghost predicate Given(m: Mu, list: seq<nat>, given: seq<nat>) {
    forall s :: s in list ==> s in m.stas && (m.stas[s].group == 0 || m.stas[s].group in given)
  }

  /** One of the users of `h` was given a group. */
  ghost predicate Served(m: Mu, given: seq<nat>, h: nat) {
    exists s :: s in m.stas && h in m.stas[s].groups && m.stas[s].group in given
  }

  /** One of the users of `h` was given another group. */
  ghost predicate TakenAway(m: Mu, list: seq<nat>, h: nat) {
    exists s :: s in list && s in m.stas && h in m.stas[s].groups && m.stas[s].group != 0 && m.stas[s].group != h
  }

  /** The number `n` left for group `h` of at first `n0` users fell if and only if, up to users
      given the group itself, one of them was given a group. */
  ghost predicate FairFor(m: Mu, list: seq<nat>, given: seq<nat>, h: nat, n: int, n0: int) {
    && n <= n0
    && (n < n0 ==> Served(m, given, h))
    && (TakenAway(m, list, h) ==> n < n0)
  }

  /** The state of the second pass; `stas0` are the stations as the first pass met them. */
  ghost predicate Giving(stas0: map<nat, Sta>, m: Mu, list: seq<nat>, nx: nat, nb: seq<int>, given: seq<nat>) {
    && |nb| == nx + 1 && Selected(m, list) && Given(m, list, given)
    && forall h :: 1 <= h <= nx ==> FairFor(m, list, given, h, nb[h], NbUsers(stas0, list, h))
  }

  /** What is left for the groups of a station once it has group `g`. */
  ghost predicate Discounted(groups: set<nat>, g: nat, top: nat, nb: seq<int>, nb': seq<int>)
    requires top < |nb|
  {
    |nb'| == |nb| && forall h :: 1 <= h <= top ==> nb'[h] == if h != g && h in groups then nb[h] - 1 else nb[h]
  }

  lemma MinusDiscounts(groups: set<nat>, g: nat, top: nat, nb: seq<int>)
    requires top < |nb|
    ensures Discounted(groups, g, top, nb, Minus(groups, g, nb))
  {
  }

  lemma GiveStep(stas0: map<nat, Sta>, m: Mu, m': Mu, list: seq<nat>, nx: nat, nb: seq<int>, nb': seq<int>,
                 given: seq<nat>, s: nat, g: nat)
    requires Giving(stas0, m, list, nx, nb, given) && s in m.stas && g in m.stas[s].groups && g in given
    requires m' == m.(stas := m.stas[s := m.stas[s].(group := g)])
    requires Discounted(m.stas[s].groups, g, nx, nb, nb')
    ensures Giving(stas0, m', list, nx, nb', given)
  {
    forall h | 1 <= h <= nx
      ensures FairFor(m', list, given, h, nb'[h], NbUsers(stas0, list, h))
    {
      assert FairFor(m, list, given, h, nb[h], NbUsers(stas0, list, h));
      GiveServed(m, m', list, given, s, g, h);
    }
  }

  lemma GiveServed(m: Mu, m': Mu, list: seq<nat>, given: seq<nat>, s: nat, g: nat, h: nat)
    requires s in m.stas && g in m.stas[s].groups && g in given
    requires m' == m.(stas := m.stas[s := m.stas[s].(group := g)])
    ensures Served(m, given, h) || h in m.stas[s].groups ==> Served(m', given, h)
    ensures TakenAway(m', list, h) ==> TakenAway(m, list, h) || (h != g && h in m.stas[s].groups)
  {
    if Served(m, given, h) {
      var t :| t in m.stas && h in m.stas[t].groups && m.stas[t].group in given;
      assert m'.stas[t].group in given;
    }
    if h in m.stas[s].groups {
      assert m'.stas[s].group in given;
    }
    if TakenAway(m', list, h) {
      var t :| t in list && t in m'.stas && h in m'.stas[t].groups && m'.stas[t].group != 0 && m'.stas[t].group != h;
      assert t != s ==> m.stas[t] == m'.stas[t];
    }
  }

  /** More groups may be given. */
  lemma GivenMore(stas0: map<nat, Sta>, m: Mu, list: seq<nat>, nx: nat, nb: seq<int>, given: seq<nat>, g: nat)
    requires Giving(stas0, m, list, nx, nb, given)
    ensures Giving(stas0, m, list, nx, nb, given + [g])
  {
    forall h | 1 <= h <= nx
      ensures FairFor(m, list, given + [g], h, nb[h], NbUsers(stas0, list, h))
    {
      assert FairFor(m, list, given, h, nb[h], NbUsers(stas0, list, h));
      if Served(m, given, h) {
        var t :| t in m.stas && h in m.stas[t].groups && m.stas[t].group in given;
        assert m.stas[t].group in given + [g];
      }
    }
  }

  /** At first no station of the list has a group. */
  lemma GivenOne(stas0: map<nat, Sta>, m: Mu, list: seq<nat>, nx: nat, nb: seq<int>, order: seq<nat>, i: nat)
    requires i < |order| && Giving(stas0, m, list, nx, nb, order[..i])
    ensures Giving(stas0, m, list, nx, nb, order[..i + 1]) && order[i] in order[..i + 1]
  {
    GivenMore(stas0, m, list, nx, nb, order[..i], order[i]);
    assert order[..i + 1] == order[..i] + [order[i]];
  }

  lemma GivingStarts(m0: Mu, m: Mu, list: seq<nat>, nx: nat, nb: seq<int>, traffic: seq<int>, order: seq<nat>)
    requires Restarted(m0, m, list, |list|) && Tallied(m0.stas, list, nx, |list|, nx, nb, traffic, order)
    requires forall s :: s in list ==> s in m0.stas
    ensures Giving(m0.stas, m, list, nx, nb, [])
  {
    assert list[..|list|] == list;
    assert forall h :: 1 <= h <= nx ==> Counts(m0.stas, list, |list|, h, nb[h], traffic[h]);
  }

  // ---------------------------------------------------------------- which groups are given out

  /** The stations in group `g`. */
  ghost function Members(stas: map<nat, Sta>, g: nat): set<nat> {
    set s | s in stas && g in stas[s].groups
  }

  /** How many users group `h` loses to the groups `p`: one for each user of another group that
      is in `h` too. */
  ghost function Lost(stas: map<nat, Sta>, p: seq<nat>, h: nat): nat {
    if p == [] then 0
    else
      var g := p[|p| - 1];
      Lost(stas, p[..|p| - 1], h) + if g == h then 0 else |Members(stas, g) * Members(stas, h)|
  }

  /** Of the groups ranked in `order` those given out: each that has two busy users or more left
      when its turn comes. */
  ghost function Picked(stas: map<nat, Sta>, list: seq<nat>, order: seq<nat>): seq<nat> {
    if order == [] then []
    else
      var p, g := Picked(stas, list, order[..|order| - 1]), order[|order| - 1];
      if NbUsers(stas, list, g) - Lost(stas, p, g) >= 2 then p + [g] else p
  }

  /** The last of `p` among `groups`, or `none`. */
  function LastOf(p: seq<nat>, groups: set<nat>, none: nat): nat {
    if p == [] then none
    else if p[|p| - 1] in groups then p[|p| - 1]
    else LastOf(p[..|p| - 1], groups, none)
  }

  /** Each station has the last group of those given out that it is in; if it is in none, one of
      the list has none and another one keeps what it had. */
  ghost predicate Distributed(stas0: map<nat, Sta>, stas: map<nat, Sta>, list: seq<nat>, p: seq<nat>) {
    && stas.Keys == stas0.Keys
    && forall s :: s in stas ==>
         stas[s].group == LastOf(p, stas[s].groups, if s in list then 0 else stas0[s].group)
  }

  /** What is left of each group once `p` were given out. */
  ghost predicate LeftOver(stas: map<nat, Sta>, list: seq<nat>, nx: nat, nb: seq<int>, p: seq<nat>) {
    |nb| == nx + 1 && forall h :: 1 <= h <= nx ==> nb[h] == NbUsers(stas, list, h) - Lost(stas, p, h)
  }

  lemma LeftOverStarts(m0: Mu, m: Mu, list: seq<nat>, nx: nat, nb: seq<int>, traffic: seq<int>, order: seq<nat>)
    requires Restarted(m0, m, list, |list|) && Tallied(m0.stas, list, nx, |list|, nx, nb, traffic, order)
    ensures LeftOver(m0.stas, list, nx, nb, []) && Distributed(m0.stas, m.stas, list, [])
  {
    assert list[..|list|] == list;
    assert forall h :: 1 <= h <= nx ==> Counts(m0.stas, list, |list|, h, nb[h], traffic[h]);
  }

  lemma PickedNext(stas: map<nat, Sta>, list: seq<nat>, order: seq<nat>, i: nat)
    requires i < |order|
    ensures
      var p, g := Picked(stas, list, order[..i]), order[i];
      Picked(stas, list, order[..i + 1]) == if NbUsers(stas, list, g) - Lost(stas, p, g) >= 2 then p + [g] else p
  {
    assert order[..i + 1][..i] == order[..i];
  }

  /** How many of the stations in the first `j` slots are in group `h` too. */
  function NbAlso(stas: map<nat, Sta>, users: seq<Slot>, j: nat, h: nat): nat
    requires j <= |users|
  {
    if j == 0 then 0
    else
      var x := users[j - 1];
      NbAlso(stas, users, j - 1, h) + if x.Used? && x.sta in stas && h in stas[x.sta].groups then 1 else 0
  }

  /** The stations in the first `j` slots. */
  function SeatedTo(users: seq<Slot>, j: nat): set<nat>
    requires j <= |users|
  {
    if j == 0 then {} else SeatedTo(users, j - 1) + if users[j - 1].Used? then {users[j - 1].sta} else {}
  }

  lemma {:induction false} SeatedIs(users: seq<Slot>, j: nat, s: nat)
    requires j <= |users|
    ensures s in SeatedTo(users, j) <==> exists k :: 0 <= k < j && users[k] == Used(s)
  {
    if j > 0 { SeatedIs(users, j - 1, s); }
  }

  lemma {:induction false} NbAlsoIs(stas: map<nat, Sta>, users: seq<Slot>, j: nat, h: nat)
    requires OnlyOnce(users) && j <= |users|
    ensures NbAlso(stas, users, j, h) == |SeatedTo(users, j) * Members(stas, h)|
  {
    var members := Members(stas, h);
    if j > 0 {
      NbAlsoIs(stas, users, j - 1, h);
      NewSeat(users, j);
      var x, seated := users[j - 1], SeatedTo(users, j - 1);
      OneMoreSeat(seated, members, x);
    } else {
      assert {} * members == {};
    }
  }

  /** Nobody sits twice. */
  lemma NewSeat(users: seq<Slot>, j: nat)
    requires OnlyOnce(users) && 0 < j <= |users|
    ensures users[j - 1].Used? ==> users[j - 1].sta !in SeatedTo(users, j - 1)
  {
    if users[j - 1].Used? { SeatedIs(users, j - 1, users[j - 1].sta); }
  }

  lemma OneMoreSeat(seated: set<nat>, members: set<nat>, x: Slot)
    requires x.Used? ==> x.sta !in seated
    ensures
      var now := seated + if x.Used? then {x.sta} else {};
      |now * members| == |seated * members| + if x.Used? && x.sta in members then 1 else 0
  {
    var now := seated + if x.Used? then {x.sta} else {};
    if x.Used? && x.sta in members {
      assert now * members == seated * members + {x.sta};
    } else {
      assert now * members == seated * members;
    }
  }

  /** One user of group `g` counted out: the other groups it is in have one less. */
  function Minus(groups: set<nat>, g: nat, nb: seq<int>): (r: seq<int>)
    ensures |r| == |nb|
  {
    seq(|nb|, h requires 0 <= h < |nb| => if h != g && h in groups then nb[h] - 1 else nb[h])
  }

  /** And those in its first `j` slots. */
  function MinusAll(stas: map<nat, Sta>, users: seq<Slot>, j: nat, g: nat, nb: seq<int>): (r: seq<int>)
    requires j <= |users|
    ensures |r| == |nb|
  {
    if j == 0 then nb
    else
      var x, r := users[j - 1], MinusAll(stas, users, j - 1, g, nb);
      if x.Used? && x.sta in stas then Minus(stas[x.sta].groups, g, r) else r
  }

  lemma {:induction false} MinusAllIs(stas: map<nat, Sta>, users: seq<Slot>, j: nat, g: nat, nb: seq<int>, h: nat)
    requires j <= |users| && h < |nb|
    ensures MinusAll(stas, users, j, g, nb)[h] == nb[h] - if h == g then 0 else NbAlso(stas, users, j, h)
  {
    if j > 0 { MinusAllIs(stas, users, j - 1, g, nb, h); }
  }

  lemma CountedOutAll(groups: map<nat, Group>, stas: map<nat, Sta>, u: nat, list: seq<nat>, g: nat, nx: nat,
                      nb: seq<int>, p: seq<nat>)
    requires Linked(groups, stas, u) && g in groups && LeftOver(stas, list, nx, nb, p)
    ensures LeftOver(stas, list, nx, MinusAll(stas, groups[g].users, u, g, nb), p + [g])
  {
    assert (p + [g])[..|p|] == p;
    var users := groups[g].users;
    SeatedMembers(groups, stas, u, g);
    forall h | 1 <= h <= nx
      ensures MinusAll(stas, users, u, g, nb)[h] == NbUsers(stas, list, h) - Lost(stas, p + [g], h)
    {
      MinusAllIs(stas, users, u, g, nb, h);
      NbAlsoIs(stas, users, u, h);
    }
  }

  lemma SeatedMembers(groups: map<nat, Group>, stas: map<nat, Sta>, u: nat, g: nat)
    requires Linked(groups, stas, u) && g in groups
    ensures SeatedTo(groups[g].users, u) == Members(stas, g)
  {
    forall s
      ensures s in SeatedTo(groups[g].users, u) <==> s in Members(stas, g)
    {
      SeatedIs(groups[g].users, u, s);
      if Used(s) in groups[g].users { assert s in stas; }
    }
  }

  lemma DistributedNext(stas0: map<nat, Sta>, m1: Mu, m: Mu, list: seq<nat>, p: seq<nat>, g: nat)
    requires Distributed(stas0, m1.stas, list, p) && GivenTo(m1, m, g)
    ensures Distributed(stas0, m.stas, list, p + [g])
  {
    assert (p + [g])[..|p|] == p;
  }

  /** Group `g` is being given: the users of its first `j` slots have it and were counted out. */
  ghost predicate Assigning(m1: Mu, n1: seq<int>, m: Mu, stas0: map<nat, Sta>, list: seq<nat>, nx: nat, nb: seq<int>,
                            given: seq<nat>, g: nat, j: nat)
  {
    && Regrouped(m1, m) && Assigned(m1, m, g, j) && Giving(stas0, m, list, nx, nb, given)
    && nb == MinusAll(m1.stas, m.groups[g].users, j, g, n1)
  }

  lemma AssigningStarts(m: Mu, stas0: map<nat, Sta>, list: seq<nat>, nx: nat, nb: seq<int>, given: seq<nat>, g: nat)
    requires g in m.groups && Giving(stas0, m, list, nx, nb, given)
    ensures Assigning(m, nb, m, stas0, list, nx, nb, given, g, 0)
  {
  }

  lemma AssigningEnds(m1: Mu, n1: seq<int>, m: Mu, stas0: map<nat, Sta>, list: seq<nat>, nx: nat, nb: seq<int>,
                      given: seq<nat>, g: nat, u: nat)
    requires Assigning(m1, n1, m, stas0, list, nx, nb, given, g, u) && Linked(m.groups, m.stas, u)
    ensures GivenTo(m1, m, g) && Giving(stas0, m, list, nx, nb, given)
    ensures nb == MinusAll(m1.stas, m.groups[g].users, u, g, n1)
  {
    AssignedAll(m1, m, g, u);
  }

  lemma AssigningNext(m1: Mu, n1: seq<int>, m: Mu, m': Mu, stas0: map<nat, Sta>, list: seq<nat>, nx: nat, nb: seq<int>,
                      nb': seq<int>, given: seq<nat>, g: nat, j: nat)
    requires Assigning(m1, n1, m, stas0, list, nx, nb, given, g, j) && j < |m.groups[g].users|
    requires Giving(stas0, m', list, nx, nb', given)
    requires
      var x := m.groups[g].users[j];
      if x.Used? then
        && x.sta in m.stas && m' == m.(stas := m.stas[x.sta := m.stas[x.sta].(group := g)])
        && nb' == Minus(m.stas[x.sta].groups, g, nb)
      else m' == m && nb' == nb
    ensures Assigning(m1, n1, m', stas0, list, nx, nb', given, g, j + 1)
  {
    AssignedNext(m1, m, m', g, j);
  }

  /** Only who is in which group matters. */
  lemma {:induction false} LostSame(stas: map<nat, Sta>, stas': map<nat, Sta>, p: seq<nat>, h: nat)
    requires SameUse(stas, stas')
    ensures Lost(stas', p, h) == Lost(stas, p, h)
  {
    if p != [] {
      LostSame(stas, stas', p[..|p| - 1], h);
      var g := p[|p| - 1];
      assert Members(stas', g) == Members(stas, g) && Members(stas', h) == Members(stas, h);
    }
  }

  lemma {:induction false} PickedSame(stas: map<nat, Sta>, stas': map<nat, Sta>, list: seq<nat>, order: seq<nat>)
    requires SameUse(stas, stas')
    ensures Picked(stas', list, order) == Picked(stas, list, order)
  {
    if order != [] {
      var g := order[|order| - 1];
      PickedSame(stas, stas', list, order[..|order| - 1]);
      SameStatistics(stas, stas', list, g);
      LostSame(stas, stas', Picked(stas, list, order[..|order| - 1]), g);
    }
  }

  /** After a run: by the traffic before and the membership after. */
  lemma DistributedIs(m0: Mu, m1: Mu, m: Mu, list: seq<nat>, order: seq<nat>)
    requires SameTraffic(m0.stas, m1.stas) && SelectOnly(m1.stas, m.stas, list)
    requires Distributed(m1.stas, m.stas, list, Picked(m1.stas, list, order))
    ensures m.stas.Keys == m0.stas.Keys
    ensures Distributed(m0.stas, m.stas, list, Picked(Measured(m0.stas, m.stas), list, order))
  {
    PickedSame(m1.stas, Measured(m0.stas, m.stas), list, order);
  }

  // ---------------------------------------------------------------- the second pass

  /** In groups of two, group `i` of the order was given to both users, or one of them was
      given a group that comes before it. */
  ghost predicate SettledAt(m: Mu, order: seq<nat>, i: nat)
    requires i < |order|
  {
    AllHave(m, order[i]) || TakenBefore(m, order, i)
  }

  ghost predicate AllHave(m: Mu, g: nat) {
    forall s :: s in m.stas && g in m.stas[s].groups ==> m.stas[s].group == g
  }

  ghost predicate TakenBefore(m: Mu, order: seq<nat>, i: nat)
    requires i < |order|
  {
    exists s, k :: 0 <= k < i && s in m.stas && order[i] in m.stas[s].groups && m.stas[s].group == order[k]
  }

  /** The first `i` groups of the order were dealt with. */
  ghost predicate Handed(stas0: map<nat, Sta>, m: Mu, list: seq<nat>, nx: nat, u: nat, nb: seq<int>, order: seq<nat>,
                         i: nat)
  {
    && i <= |order| && Giving(stas0, m, list, nx, nb, order[..i])
    && (forall k :: 0 <= k < i ==> Served(m, order, order[k]))
    && (u == 2 ==> forall k :: 0 <= k < i ==> SettledAt(m, order, k))
  }

  /** And the groups given out are those picked. */
  ghost predicate HandedOut(stas0: map<nat, Sta>, m: Mu, list: seq<nat>, nx: nat, u: nat, nb: seq<int>,
                            order: seq<nat>, i: nat)
  {
    && Handed(stas0, m, list, nx, u, nb, order, i)
    && LeftOver(stas0, list, nx, nb, Picked(stas0, list, order[..i]))
    && Distributed(stas0, m.stas, list, Picked(stas0, list, order[..i]))
  }

  lemma HandedOutStarts(stas0: map<nat, Sta>, m: Mu, list: seq<nat>, nx: nat, u: nat, nb: seq<int>, order: seq<nat>)
    requires Giving(stas0, m, list, nx, nb, []) && LeftOver(stas0, list, nx, nb, [])
    requires Distributed(stas0, m.stas, list, [])
    ensures HandedOut(stas0, m, list, nx, u, nb, order, 0)
  {
    assert order[..0] == [];
  }

  lemma HandedOutEnds(stas0: map<nat, Sta>, m: Mu, list: seq<nat>, nx: nat, u: nat, nb: seq<int>, order: seq<nat>)
    requires HandedOut(stas0, m, list, nx, u, nb, order, |order|)
    ensures Apportioned(m, list, u, order) && Distributed(stas0, m.stas, list, Picked(stas0, list, order))
  {
    AllHanded(stas0, m, list, nx, u, nb, order);
    assert order[..|order|] == order;
  }

  /** How the groups ranked in `order` are given to the stations of `list`: a station has
      none or one of these that it is in, every one of them has a user with a group, and in
      groups of two this is the greedy matching in the order of their traffic. */
  ghost predicate Apportioned(m: Mu, list: seq<nat>, u: nat, order: seq<nat>) {
    && Selected(m, list) && Given(m, list, order)
    && (forall k :: 0 <= k < |order| ==> Served(m, order, order[k]))
    && (u == 2 ==> forall k :: 0 <= k < |order| ==> SettledAt(m, order, k))
  }

  /** A selection: the groups ranked in `order` are given out to the stations. */
  ghost predicate Selection(m0: Mu, m: Mu, list: seq<nat>, nx: nat, u: nat, order: seq<nat>) {
    && SelectOnly(m0.stas, m.stas, list) && Ranked(m0.stas, list, nx, order) && Apportioned(m, list, u, order)
    && Distributed(m0.stas, m.stas, list, Picked(m0.stas, list, order))
  }

  lemma {:induction false} MinusAllSame(stas: map<nat, Sta>, stas': map<nat, Sta>, users: seq<Slot>, j: nat, g: nat,
                                        nb: seq<int>)
    requires SameGroups(stas, stas') && j <= |users|
    ensures MinusAll(stas', users, j, g, nb) == MinusAll(stas, users, j, g, nb)
  {
    if j > 0 { MinusAllSame(stas, stas', users, j - 1, g, nb); }
  }

  lemma GivenPicked(m0: Mu, m1: Mu, m: Mu, list: seq<nat>, nx: nat, u: nat, nb: seq<int>, nb': seq<int>, p: seq<nat>,
                    g: nat)
    requires Linked(m.groups, m0.stas, u) && SameGroups(m0.stas, m1.stas) && GivenTo(m1, m, g)
    requires LeftOver(m0.stas, list, nx, nb, p) && Distributed(m0.stas, m1.stas, list, p)
    requires u == |m.groups[g].users| && nb' == MinusAll(m1.stas, m.groups[g].users, u, g, nb)
    ensures LeftOver(m0.stas, list, nx, nb', p + [g]) && Distributed(m0.stas, m.stas, list, p + [g])
  {
    DistributedNext(m0.stas, m1, m, list, p, g);
    MinusAllSame(m0.stas, m1.stas, m.groups[g].users, u, g, nb);
    CountedOutAll(m.groups, m0.stas, u, list, g, nx, nb, p);
  }

  /** In groups of two, the one with the most traffic is given to all its users. */
  lemma FirstHeld(m: Mu, list: seq<nat>, order: seq<nat>)
    requires Apportioned(m, list, 2, order) && order != []
    ensures AllHave(m, order[0])
  {
    assert SettledAt(m, order, 0);
  }

  lemma AllHanded(stas0: map<nat, Sta>, m: Mu, list: seq<nat>, nx: nat, u: nat, nb: seq<int>, order: seq<nat>)
    requires Handed(stas0, m, list, nx, u, nb, order, |order|)
    ensures Apportioned(m, list, u, order)
  {
    assert order[..|order|] == order;
  }

  lemma ServedBefore(m: Mu, order: seq<nat>, i: nat)
    requires i < |order| && Served(m, order[..i], order[i])
    ensures TakenBefore(m, order, i) && Served(m, order, order[i])
  {
    var s :| s in m.stas && order[i] in m.stas[s].groups && m.stas[s].group in order[..i];
    var k :| 0 <= k < i && m.stas[s].group == order[k];
    assert m.stas[s].group in order;
  }

  /** A group with fewer than two users left is passed over: one of its users has a group. */
  lemma PassOver(stas0: map<nat, Sta>, m: Mu, list: seq<nat>, nx: nat, u: nat, nb: seq<int>, order: seq<nat>, i: nat)
    requires Handed(stas0, m, list, nx, u, nb, order, i) && i < |order| && Ranked(stas0, list, nx, order)
    requires order[i] <= nx && nb[order[i]] < 2
    ensures Handed(stas0, m, list, nx, u, nb, order, i + 1)
  {
    FewLeft(stas0, m, list, nx, nb, order, i);
    ServedBefore(m, order, i);
    GivenMore(stas0, m, list, nx, nb, order[..i], order[i]);
    HandedNext(stas0, m, list, nx, u, nb, order, i);
  }

  lemma FewLeft(stas0: map<nat, Sta>, m: Mu, list: seq<nat>, nx: nat, nb: seq<int>, order: seq<nat>, i: nat)
    requires i < |order| && Giving(stas0, m, list, nx, nb, order[..i]) && Ranked(stas0, list, nx, order)
    requires order[i] <= nx && nb[order[i]] < 2
    ensures Served(m, order[..i], order[i])
  {
    assert order[i] in order;
    assert FairFor(m, list, order[..i], order[i], nb[order[i]], NbUsers(stas0, list, order[i]));
  }

  lemma HandedNext(stas0: map<nat, Sta>, m: Mu, list: seq<nat>, nx: nat, u: nat, nb: seq<int>, order: seq<nat>, i: nat)
    requires i < |order| && Giving(stas0, m, list, nx, nb, order[..i] + [order[i]])
    requires forall k :: 0 <= k < i ==> Served(m, order, order[k])
    requires u == 2 ==> forall k :: 0 <= k < i ==> SettledAt(m, order, k)
    requires Served(m, order, order[i]) && (u == 2 ==> SettledAt(m, order, i))
    ensures Handed(stas0, m, list, nx, u, nb, order, i + 1)
  {
    assert order[..i + 1] == order[..i] + [order[i]];
  }

  /** A group given leaves those dealt with before as they are. */
  lemma GivenServed(m1: Mu, m: Mu, g: nat, order: seq<nat>, h: nat)
    requires GivenTo(m1, m, g) && g in order && Served(m1, order, h)
    ensures Served(m, order, h)
  {
    var s :| s in m1.stas && h in m1.stas[s].groups && m1.stas[s].group in order;
    assert m.stas[s].group in order;
  }

  /** In groups of two, a group with two users left has no user that was given another. */
  lemma PairFree(stas0: map<nat, Sta>, m: Mu, list: seq<nat>, nx: nat, nb: seq<int>, given: seq<nat>, g: nat)
    requires Giving(stas0, m, list, nx, nb, given) && 1 <= g <= nx && nb[g] >= 2
    requires NbUsers(stas0, list, g) <= 2
    ensures !TakenAway(m, list, g)
  {
    assert FairFor(m, list, given, g, nb[g], NbUsers(stas0, list, g));
  }

  lemma PairKept(m1: Mu, m: Mu, list: seq<nat>, order: seq<nat>, i: nat, k: nat)
    requires k < i < |order| && NoDup(order) && 0 !in order && GivenTo(m1, m, order[i])
    requires !TakenAway(m1, list, order[i])
    requires forall s :: s in m1.stas && order[i] in m1.stas[s].groups ==> s in list
    requires SettledAt(m1, order, k)
    ensures SettledAt(m, order, k)
  {
    var g := order[i];
    forall s | s in m1.stas && m1.stas[s].group != 0 && m1.stas[s].group != g
      ensures m.stas[s] == m1.stas[s]
    {
    }
    assert order[k] in order;
    if AllHave(m1, order[k]) {
      assert AllHave(m, order[k]);
    } else {
      var s, l :| 0 <= l < k && s in m1.stas && order[k] in m1.stas[s].groups && m1.stas[s].group == order[l];
      assert order[l] in order;
      assert m.stas[s].group == order[l];
    }
  }

  lemma HandOver(groups: map<nat, Group>, stas0: map<nat, Sta>, m1: Mu, m: Mu, list: seq<nat>, nx: nat, u: nat,
                 nb: seq<int>, nb': seq<int>, order: seq<nat>, i: nat)
    requires Handed(stas0, m1, list, nx, u, nb, order, i) && i < |order| && Ranked(stas0, list, nx, order)
    requires Linked(groups, stas0, u) && NoDup(list) && order[i] in groups && order[i] <= nx && nb[order[i]] >= 2
    requires SameGroups(stas0, m1.stas)
    requires GivenTo(m1, m, order[i]) && Giving(stas0, m, list, nx, nb', order[..i + 1])
    ensures Handed(stas0, m, list, nx, u, nb', order, i + 1)
  {
    var g := order[i];
    assert g in order;
    SomeBusy(stas0, list, g);
    var s :| s in stas0 && g in stas0[s].groups;
    assert m.stas[s].group == g;
    forall k | 0 <= k < i {
      GivenServed(m1, m, g, order, order[k]);
    }
    if u == 2 {
      PairBusy(groups, stas0, list, g);
      PairFree(stas0, m1, list, nx, nb, order[..i], g);
      forall k | 0 <= k < i {
        PairKept(m1, m, list, order, i, k);
      }
    }
  }

  /** The table sorted: the groups with two busy users or more by falling traffic. */
  lemma SortedRanks(stas: map<nat, Sta>, list: seq<nat>, nx: nat, nb: seq<int>, traffic: seq<int>, o: seq<nat>,
                    order: seq<nat>)
    requires Tallied(stas, list, nx, |list|, nx, nb, traffic, o)
    requires multiset(order) == multiset(o) && Listed(order, |traffic|) && Descending(Weights(traffic, order))
    ensures Ranked(stas, list, nx, order)
  {
    assert list[..|list|] == list;
    assert forall g :: 1 <= g <= nx ==> Counts(stas, list, |list|, g, nb[g], traffic[g]);
    forall g
      ensures g in order <==> g in o
    {
      assert g in order <==> g in multiset(order);
      assert g in o <==> g in multiset(o);
    }
    SameNoDup(o, order);
    var w := Weights(traffic, order);
    forall i, j | 0 <= i < j < |order|
      ensures Volume(stas, list, order[i]) >= Volume(stas, list, order[j])
    {
      assert order[i] in order && order[j] in order;
      assert w[i] >= w[j];
    }
  }

  lemma {:induction false} OnceEach(s: seq<nat>)
    ensures NoDup(s) <==> forall x :: multiset(s)[x] <= 1
  {
    if s != [] {
      var front, x := s[..|s| - 1], s[|s| - 1];
      OnceEach(front);
      assert s == front + [x];
      assert x in front <==> x in multiset(front);
      if NoDup(s) {
        assert NoDup(front) && x !in front;
      } else if NoDup(front) {
        assert x in front;
        assert multiset(s)[x] >= 2;
      } else {
        var y :| multiset(front)[y] > 1;
        assert multiset(s)[y] > 1;
      }
    }
  }

  lemma SameNoDup(s: seq<nat>, t: seq<nat>)
    requires multiset(s) == multiset(t) && NoDup(s)
    ensures NoDup(t)
  {
    OnceEach(s);
    OnceEach(t);
  }
}
