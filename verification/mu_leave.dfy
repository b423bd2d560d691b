/** A station leaves: it is taken out of its groups, and a group left with one user is
    dropped.  Its slot keeps that user, though, so that the tables disagree from then on. */
module MuLeave {
  import opened Collections
  import opened MuModel
  import opened MuSteps

  /** The first slot that holds `x`, the length of the table if none does. */
  function FirstAt(users: seq<Slot>, x: Slot): (j: nat)
    ensures j <= |users| && (j < |users| ==> users[j] == x)
    ensures forall k :: 0 <= k < j ==> users[k] != x
  {
    if users == [] || users[0] == x then 0 else
      var j := FirstAt(users[1..], x);
      assert forall k :: 0 < k < j + 1 ==> users[k] == users[1..][k - 1];
      j + 1
  }

  /** The first filled slot. */
  function FirstUsed(users: seq<Slot>): (j: nat)
    ensures j <= |users| && (j < |users| ==> users[j].Used?)
    ensures forall k :: 0 <= k < j ==> users[k] == Free
  {
    if users == [] || users[0].Used? then 0 else
      var j := FirstUsed(users[1..]);
      assert forall k :: 0 < k < j + 1 ==> users[k] == users[1..][k - 1];
      j + 1
  }

  /** Groups of the station with one other user. */
  function PairGroups(m: Mu, s: nat): set<nat>
    requires s in m.stas
  {
    set g | g in m.stas[s].groups && g in m.groups && m.groups[g].userCnt == 2
  }

  /** Group `gr` without station `s`; the counter of a pair goes to 0. */
  function Shrunk(gr: Group, s: nat): Group {
    var j := FirstAt(gr.users, Used(s));
    var users := if j < |gr.users| then gr.users[j := Free] else gr.users;
    Group(if gr.userCnt == 2 then 0 else gr.userCnt - 1, users)
  }

  /** The other user of a pair forgets the group. */
  function Widowed(x: Sta, g: nat): Sta {
    x.(groups := x.groups - {g}, cnt := x.cnt - 1, group := if x.group == g then 0 else x.group)
  }

  /** The station was taken out of its groups above `top`. */
  ghost predicate Leaving(m0: Mu, m: Mu, s: nat, top: nat)
    requires s in m0.stas
  {
    && m == m0.(groups := m.groups, stas := m.stas, groupCnt := m.groupCnt)
    && m.groups.Keys == m0.groups.Keys && m.stas.Keys == m0.stas.Keys && m.stas[s] == m0.stas[s]
    && GroupsShrunk(m0.groups, m.groups, s, Over(m0.stas[s].groups, top))
    && OthersLeft(m0.stas, m.stas, s, Over(PairGroups(m0, s), top))
    && m.groupCnt == m0.groupCnt - |Over(PairGroups(m0, s), top)|
  }

  ghost predicate GroupsShrunk(groups0: map<nat, Group>, groups: map<nat, Group>, s: nat, those: set<nat>)
    requires groups0.Keys == groups.Keys
  {
    forall g :: g in groups0 ==> groups[g] == if g in those then Shrunk(groups0[g], s) else groups0[g]
  }

  ghost predicate OthersLeft(stas0: map<nat, Sta>, stas: map<nat, Sta>, s: nat, gone: set<nat>)
    requires stas0.Keys == stas.Keys
  {
    forall t :: t in stas0 && t != s ==> Left(stas0[t], stas[t], gone)
  }

  /** A station lost the groups `gone`, and that only. */
  ghost predicate Left(x0: Sta, x: Sta, gone: set<nat>) {
    && x.groups == x0.groups - gone && x.cnt - |x.groups| == x0.cnt - |x0.groups|
    && x == x0.(groups := x.groups, cnt := x.cnt, group := x.group)
    && x.group == if x0.group in x0.groups * gone then 0 else x0.group
  }

  // ---------------------------------------------------------------- one group

  /** Group `g` without the station, and if it was a pair its other user without the group. */
  function Expelled(m: Mu, s: nat, g: nat): Mu
    requires g in m.groups
  {
    var gr := Shrunk(m.groups[g], s);
    var j := FirstUsed(gr.users);
    var m' := m.(groups := m.groups[g := gr]);
    if m.groups[g].userCnt == 2 && j < |gr.users| && gr.users[j].sta in m.stas
    then m'.(stas := m.stas[gr.users[j].sta := Widowed(m.stas[gr.users[j].sta], g)], groupCnt := m.groupCnt - 1)
    else m'
  }

  /** Two slots filled are all of a pair. */
  lemma PairSlots(users: seq<Slot>, i: nat, j: nat, k: nat)
    requires Filled(users) == 2 && i < |users| && j < |users| && k < |users| && i != j
    requires users[i].Used? && users[j].Used? && users[k].Used?
    ensures k == i || k == j
  {
    if k != i && k != j {
      ThreeFilled(users, i, j, k);
    }
  }

  lemma ThreeFilled(users: seq<Slot>, i: nat, j: nat, k: nat)
    requires i < |users| && j < |users| && k < |users| && i != j && j != k && k != i
    requires users[i].Used? && users[j].Used? && users[k].Used?
    ensures Filled(users) >= 3
  {
    SubsetSize({i, j, k}, FilledAt(users));
    assert |{i, j, k}| == 3;
  }

  /** The other user of a pair. */
  ghost predicate Other(m: Mu, u: nat, s: nat, g: nat, t: nat)
    requires g in m.groups
  {
    var users := Shrunk(m.groups[g], s).users;
    && FirstUsed(users) < |users| && users[FirstUsed(users)] == Used(t) && t != s && t in m.stas
    && g in m.stas[t].groups
    && forall x :: x in m.stas && g in m.stas[x].groups ==> x == s || x == t
  }

  lemma PairOther(m: Mu, nx: nat, u: nat, s: nat, g: nat) returns (t: nat)
    requires Consistent(m, nx, u) && s in m.stas && g in PairGroups(m, s)
    ensures Other(m, u, s, g, t)
  {
    var users := m.groups[g].users;
    assert Used(s) in users;
    var i := FirstAt(users, Used(s));
    var rest := users[i := Free];
    assert rest == Shrunk(m.groups[g], s).users;
    FilledUpdate(users, i, Free);
    if FirstUsed(rest) == |rest| { NoneFilled(rest); }
    var j := FirstUsed(rest);
    t := users[j].sta;
    assert users[j] == rest[j] && Used(t) in users;
    forall x | x in m.stas && g in m.stas[x].groups
      ensures x == s || x == t
    {
      assert Used(x) in users;
      var k :| 0 <= k < |users| && users[k] == Used(x);
      PairSlots(users, i, j, k);
    }
  }

  lemma OverSkip(groups: set<nat>, g: nat, next: nat)
    requires next <= g && forall h :: next < h <= g ==> h !in groups
    ensures Over(groups, next) == Over(groups, g)
  {
  }

  lemma LeftMore(x0: Sta, x: Sta, gone: set<nat>, g: nat)
    requires Left(x0, x, gone) && g >= 1 && g !in gone
    ensures g in x0.groups ==> Left(x0, Widowed(x, g), gone + {g})
    ensures g !in x0.groups ==> Left(x0, x, gone + {g})
  {
    if g in x0.groups {
      assert x.groups - {g} == x0.groups - (gone + {g});
      assert |x.groups - {g}| == |x.groups| - 1;
    } else {
      assert x.groups == x0.groups - (gone + {g});
    }
  }

  lemma GroupShrinks(groups0: map<nat, Group>, groups: map<nat, Group>, s: nat, all: set<nat>, g: nat, next: nat)
    requires groups0.Keys == groups.Keys && g in groups && g in all
    requires GroupsShrunk(groups0, groups, s, Over(all, g))
    requires next < g && forall h :: next < h < g ==> h !in all
    ensures groups[g] == groups0[g]
    ensures GroupsShrunk(groups0, groups[g := Shrunk(groups[g], s)], s, Over(all, next))
  {
    OverNext(all, g, next);
  }

  lemma OtherLeaves(stas0: map<nat, Sta>, stas: map<nat, Sta>, s: nat, pairs: set<nat>, g: nat, next: nat, t: nat)
    requires stas0.Keys == stas.Keys && t in stas0 && t != s && g in stas0[t].groups && g >= 1
    requires forall x :: x in stas0 && g in stas0[x].groups ==> x == s || x == t
    requires OthersLeft(stas0, stas, s, Over(pairs, g))
    requires g in pairs && next < g && forall h :: next < h < g ==> h !in pairs
    ensures OthersLeft(stas0, stas[t := Widowed(stas[t], g)], s, Over(pairs, next))
    ensures |Over(pairs, next)| == |Over(pairs, g)| + 1
  {
    OverNext(pairs, g, next);
    forall x | x in stas0 && x != s
      ensures Left(stas0[x], stas[t := Widowed(stas[t], g)][x], Over(pairs, next))
    {
      LeftMore(stas0[x], stas[x], Over(pairs, g), g);
    }
  }

  /** Group `g`, the next of the station from above, loses it. */
  lemma LeavingPair(m0: Mu, m: Mu, u: nat, s: nat, g: nat, next: nat, t: nat)
    requires s in m0.stas && Leaving(m0, m, s, g) && g in PairGroups(m0, s) && g >= 1 && Other(m0, u, s, g, t)
    requires next < g && forall h :: next < h < g ==> h !in m0.stas[s].groups
    ensures m.groups[g] == m0.groups[g]
    ensures Leaving(m0, Expelled(m, s, g), s, next)
  {
    LeavingShrinks(m0, m, s, g, next);
    LeavingOther(m0, m, u, s, g, next, t);
    ExpelledPair(m0, m, u, s, g, t);
    var groups, stas := m.groups[g := Shrunk(m.groups[g], s)], m.stas[t := Widowed(m.stas[t], g)];
    LeavingIs(m0, m, Expelled(m, s, g), s, next, groups, stas, m.groupCnt - 1);
  }

  lemma LeavingShrinks(m0: Mu, m: Mu, s: nat, g: nat, next: nat)
    requires s in m0.stas && Leaving(m0, m, s, g) && g in m0.stas[s].groups && g in m0.groups
    requires next < g && forall h :: next < h < g ==> h !in m0.stas[s].groups
    ensures g in m.groups && m.groups[g] == m0.groups[g]
    ensures m.groups[g := Shrunk(m.groups[g], s)].Keys == m0.groups.Keys
    ensures GroupsShrunk(m0.groups, m.groups[g := Shrunk(m.groups[g], s)], s, Over(m0.stas[s].groups, next))
  {
    GroupShrinks(m0.groups, m.groups, s, m0.stas[s].groups, g, next);
  }

  lemma LeavingOther(m0: Mu, m: Mu, u: nat, s: nat, g: nat, next: nat, t: nat)
    requires s in m0.stas && Leaving(m0, m, s, g) && g in PairGroups(m0, s) && g >= 1 && Other(m0, u, s, g, t)
    requires next < g && forall h :: next < h < g ==> h !in m0.stas[s].groups
    ensures t in m.stas && m.stas[t := Widowed(m.stas[t], g)].Keys == m0.stas.Keys
    ensures m.stas[t := Widowed(m.stas[t], g)][s] == m0.stas[s]
    ensures OthersLeft(m0.stas, m.stas[t := Widowed(m.stas[t], g)], s, Over(PairGroups(m0, s), next))
    ensures |Over(PairGroups(m0, s), next)| == |Over(PairGroups(m0, s), g)| + 1
  {
    OtherLeaves(m0.stas, m.stas, s, PairGroups(m0, s), g, next, t);
  }

  lemma LeavingIs(m0: Mu, m: Mu, m': Mu, s: nat, top: nat, groups: map<nat, Group>, stas: map<nat, Sta>, cnt: int)
    requires s in m0.stas && m == m0.(groups := m.groups, stas := m.stas, groupCnt := m.groupCnt)
    requires m' == m.(groups := groups, stas := stas, groupCnt := cnt)
    requires groups.Keys == m0.groups.Keys && stas.Keys == m0.stas.Keys && stas[s] == m0.stas[s]
    requires GroupsShrunk(m0.groups, groups, s, Over(m0.stas[s].groups, top))
    requires OthersLeft(m0.stas, stas, s, Over(PairGroups(m0, s), top))
    requires cnt == m0.groupCnt - |Over(PairGroups(m0, s), top)|
    ensures Leaving(m0, m', s, top)
  {
  }

  lemma ExpelledPair(m0: Mu, m: Mu, u: nat, s: nat, g: nat, t: nat)
    requires g in m.groups && g in m0.groups && m.groups[g] == m0.groups[g] && m.groups[g].userCnt == 2
    requires m.stas.Keys == m0.stas.Keys && Other(m0, u, s, g, t)
    ensures Expelled(m, s, g) ==
      m.(groups := m.groups[g := Shrunk(m.groups[g], s)], stas := m.stas[t := Widowed(m.stas[t], g)],
         groupCnt := m.groupCnt - 1)
  {
  }

  lemma LeavingMore(m0: Mu, m: Mu, s: nat, g: nat, next: nat)
    requires s in m0.stas && Leaving(m0, m, s, g)
    requires g in m0.stas[s].groups && g in m0.groups && m0.groups[g].userCnt != 2
    requires next < g && forall h :: next < h < g ==> h !in m0.stas[s].groups
    ensures m.groups[g] == m0.groups[g]
    ensures Leaving(m0, Expelled(m, s, g), s, next)
  {
    GroupShrinks(m0.groups, m.groups, s, m0.stas[s].groups, g, next);
    OverSkip(PairGroups(m0, s), g, next);
  }

  /** One round of the loop of aml_mu_group_sta_del.  Its warning that the station is not
      in the group never comes. */
  lemma LeavingStep(m0: Mu, m: Mu, nx: nat, u: nat, s: nat, g: nat, next: nat)
    requires Consistent(m0, nx, u) && s in m0.stas && Leaving(m0, m, s, g) && g in m0.stas[s].groups
    requires next < g && forall h :: next < h < g ==> h !in m0.stas[s].groups
    ensures g in m.groups && FirstAt(m.groups[g].users, Used(s)) < |m.groups[g].users| == u
    ensures m.groups[g].userCnt == 2 ==>
      var rest := Shrunk(m.groups[g], s).users;
      FirstUsed(rest) < |rest| && rest[FirstUsed(rest)].sta in m.stas && rest[FirstUsed(rest)].sta != s
    ensures Leaving(m0, Expelled(m, s, g), s, next)
  {
    SeatOf(m0, nx, u, s, g);
    if g in PairGroups(m0, s) {
      var t := PairOther(m0, nx, u, s, g);
      LeavingPair(m0, m, u, s, g, next, t);
    } else {
      LeavingMore(m0, m, s, g, next);
    }
  }

  lemma LeavingStarts(m: Mu, s: nat, top: nat)
    requires s in m.stas && forall g :: g in m.stas[s].groups ==> g <= top
    ensures Leaving(m, m, s, top)
  {
    assert Over(PairGroups(m, s), top) == {};
    assert forall t :: t in m.stas ==> Left(m.stas[t], m.stas[t], {});
  }

  // ---------------------------------------------------------------- the result

  /** The station itself gives up its groups and its places on the lists. */
  function Gone(m: Mu, s: nat): Mu
    requires s in m.stas
  {
    m.(stas := m.stas[s := m.stas[s].(groups := {}, cnt := 0, traffic := 0)],
       activeSta := Without(m.activeSta, s), updateSta := Without(m.updateSta, s))
  }

  /** What aml_mu_group_sta_del makes of `m0`. */
  ghost predicate Deleted(m0: Mu, m: Mu, s: nat) {
    s in m0.stas && exists m1 :: Leaving(m0, m1, s, 0) && m == Gone(m1, s)
  }

  /** The firmware knows the places of every station not due for an update but `s`. */
  ghost predicate InTouchBut(m: Mu, fw: map<nat, set<(nat, nat)>>, s: nat) {
    forall t :: t in m.stas && t != s && t !in m.updateSta ==> Heard(fw, t) == Places(m.groups, m.stas, t)
  }

  /** The same users but `s`, each once. */
  ghost predicate MinusOne(users0: seq<Slot>, users: seq<Slot>, s: nat) {
    && |users| == |users0| && OnlyOnce(users)
    && forall x :: x in users && x != Free <==> x != Used(s) && x in users0 && x != Free
  }

  lemma ShrunkKeeps(gr: Group, s: nat)
    requires OnlyOnce(gr.users) && Used(s) in gr.users && gr.userCnt == Filled(gr.users) && gr.userCnt != 2
    requires gr.userCnt != 1
    ensures
      var gr' := Shrunk(gr, s);
      && MinusOne(gr.users, gr'.users, s) && gr'.userCnt == Filled(gr'.users) >= 2 && gr.userCnt > 0
  {
    var j := FirstAt(gr.users, Used(s));
    assert j in FilledAt(gr.users);
    SeatLeft(gr.users, j);
    FilledUpdate(gr.users, j, Free);
  }

  /** A group that is no pair keeps its other users, and at least two of them if it had any. */
  lemma RestKept(m0: Mu, m: Mu, nx: nat, u: nat, s: nat, g: nat)
    requires Consistent(m0, nx, u) && s in m0.stas && Leaving(m0, m, s, 0) && g in m0.groups && g !in PairGroups(m0, s)
    ensures g in m.groups && |m0.groups[g].users| == u && MinusOne(m0.groups[g].users, m.groups[g].users, s)
    ensures m.groups[g].userCnt == Filled(m.groups[g].users) != 1
    ensures m.groups[g].userCnt > 0 <==> m0.groups[g].userCnt > 0
  {
    if g in m0.stas[s].groups {
      SeatOf(m0, nx, u, s, g);
      assert g in Over(m0.stas[s].groups, 0);
      ShrunkKeeps(m0.groups[g], s);
    } else {
      assert Used(s) !in m0.groups[g].users;
    }
  }

  lemma OthersKept(m0: Mu, m: Mu, s: nat)
    requires s in m0.stas && Leaving(m0, m, s, 0) && PairGroups(m0, s) == {}
    ensures forall t :: t in m0.stas ==> m.stas[t] == m0.stas[t]
    ensures m.groupCnt == m0.groupCnt
  {
    assert Over(PairGroups(m0, s), 0) == {};
    forall t | t in m0.stas && t != s
      ensures m.stas[t] == m0.stas[t]
    {
      assert Left(m0.stas[t], m.stas[t], {});
      assert m.stas[t].groups == m0.stas[t].groups;
    }
  }

  /** Slots and bitmaps of group `g` agree. */
  ghost predicate GroupLinked(groups: map<nat, Group>, stas: map<nat, Sta>, u: nat, g: nat)
    requires g in groups
  {
    && |groups[g].users| == u && OnlyOnce(groups[g].users)
    && (forall t :: t in stas ==> (g in stas[t].groups <==> Used(t) in groups[g].users))
    && (forall j :: 0 <= j < u && groups[g].users[j].Used? ==> groups[g].users[j].sta in stas)
  }

  lemma LinkedIs(groups: map<nat, Group>, stas: map<nat, Sta>, u: nat)
    requires forall g :: g in groups ==> GroupLinked(groups, stas, u, g)
    requires forall s :: s in stas ==> stas[s].groups <= groups.Keys && stas[s].cnt == |stas[s].groups|
    requires forall s :: s in stas && stas[s].su ==> stas[s].groups == {}
    ensures Linked(groups, stas, u)
  {
    forall s, g | s in stas && g in groups
      ensures g in stas[s].groups <==> Used(s) in groups[g].users
    {
      assert GroupLinked(groups, stas, u, g);
    }
  }

  /** The users of a group and the stations that are in it, after `s` left both. */
  lemma GoneMembers(groups0: map<nat, Group>, groups: map<nat, Group>, stas0: map<nat, Sta>, stas: map<nat, Sta>,
                    u: nat, s: nat, g: nat)
    requires g in groups0 && g in groups && GroupLinked(groups0, stas0, u, g)
    requires MinusOne(groups0[g].users, groups[g].users, s) && s in stas0 && stas.Keys == stas0.Keys
    requires stas[s].groups == {} && forall t :: t in stas0 && t != s ==> stas[t].groups == stas0[t].groups
    ensures GroupLinked(groups, stas, u, g)
  {
    var users0, users := groups0[g].users, groups[g].users;
    forall j | 0 <= j < |users| && users[j].Used?
      ensures users[j].sta in stas
    {
      assert users[j] in users;
      var k :| 0 <= k < |users0| && users0[k] == users[j];
    }
  }

  lemma LinkedAt(groups: map<nat, Group>, stas: map<nat, Sta>, u: nat, g: nat)
    requires Linked(groups, stas, u) && g in groups
    ensures GroupLinked(groups, stas, u, g)
  {
  }

  lemma GoneStas(m0: Mu, m: Mu, s: nat)
    requires s in m0.stas && Leaving(m0, m, s, 0) && PairGroups(m0, s) == {}
    ensures s in m.stas && Gone(m, s).stas.Keys == m0.stas.Keys && Gone(m, s).stas[s].groups == {}
    ensures forall t :: t in m0.stas && t != s ==> Gone(m, s).stas[t].groups == m0.stas[t].groups
  {
    OthersKept(m0, m, s);
  }

  lemma GoneGroup(m0: Mu, m: Mu, nx: nat, u: nat, s: nat, g: nat)
    requires Consistent(m0, nx, u) && s in m0.stas && Leaving(m0, m, s, 0) && PairGroups(m0, s) == {} && g in m.groups
    ensures GroupLinked(m.groups, Gone(m, s).stas, u, g)
  {
    GoneStas(m0, m, s);
    RestKept(m0, m, nx, u, s, g);
    LinkedAt(m0.groups, m0.stas, u, g);
    GoneMembers(m0.groups, m.groups, m0.stas, Gone(m, s).stas, u, s, g);
  }

  lemma GoneLinked(m0: Mu, m: Mu, nx: nat, u: nat, s: nat)
    requires Consistent(m0, nx, u) && s in m0.stas && Leaving(m0, m, s, 0) && PairGroups(m0, s) == {}
    ensures Linked(m.groups, Gone(m, s).stas, u)
  {
    OthersKept(m0, m, s);
    forall g | g in m.groups {
      GoneGroup(m0, m, nx, u, s, g);
    }
    LinkedIs(m.groups, Gone(m, s).stas, u);
  }

  lemma GoneLists(m0: Mu, m: Mu, nx: nat, u: nat, s: nat)
    requires Consistent(m0, nx, u) && s in m0.stas && Leaving(m0, m, s, 0)
    ensures Lists(Gone(m, s)) && Sized(Gone(m, s), nx, u)
  {
    WithoutNoDup(m.activeSta, s);
    WithoutNoDup(m.updateSta, s);
    assert forall t :: t in m0.stas && t != s ==> m.stas[t].su == m0.stas[t].su;
  }

  lemma GoneCounted(m0: Mu, m: Mu, nx: nat, u: nat, s: nat)
    requires Consistent(m0, nx, u) && s in m0.stas && Leaving(m0, m, s, 0) && PairGroups(m0, s) == {}
    ensures Counted(m.groups) && m.groupCnt == |NonEmpty(m.groups)|
  {
    OthersKept(m0, m, s);
    forall g | g in m0.groups
      ensures m.groups[g].userCnt == Filled(m.groups[g].users) != 1
      ensures m.groups[g].userCnt > 0 <==> m0.groups[g].userCnt > 0
    {
      RestKept(m0, m, nx, u, s, g);
    }
    SameNonEmpty(m0.groups, m.groups);
  }

  lemma SameNonEmpty(groups0: map<nat, Group>, groups: map<nat, Group>)
    requires groups.Keys == groups0.Keys
    requires forall g :: g in groups0 ==> (groups[g].userCnt > 0 <==> groups0[g].userCnt > 0)
    ensures NonEmpty(groups) == NonEmpty(groups0)
  {
  }

  /** A station that shares no pair leaves everything consistent. */
  lemma GoneKeeps(m0: Mu, m: Mu, nx: nat, u: nat, s: nat)
    requires Consistent(m0, nx, u) && s in m0.stas && Leaving(m0, m, s, 0) && PairGroups(m0, s) == {}
    ensures Consistent(Gone(m, s), nx, u)
  {
    GoneLists(m0, m, nx, u, s);
    GoneLinked(m0, m, nx, u, s);
    GoneCounted(m0, m, nx, u, s);
  }

  /** A pair is left with a filled slot, and a counter that says it has none. */
  lemma PairStale(m0: Mu, m: Mu, nx: nat, u: nat, s: nat, g: nat)
    requires Consistent(m0, nx, u) && s in m0.stas && Leaving(m0, m, s, 0) && g in PairGroups(m0, s)
    ensures g in m.groups && m.groups[g].userCnt == 0 && Filled(m.groups[g].users) == 1
  {
    SeatOf(m0, nx, u, s, g);
    assert m.groups[g] == Shrunk(m0.groups[g], s);
    FilledUpdate(m0.groups[g].users, FirstAt(m0.groups[g].users, Used(s)), Free);
  }

  /** A deletion keeps the tables consistent if and only if no group of the station has
      just one other user. */
  lemma DeletionConsistent(m0: Mu, m: Mu, nx: nat, u: nat, s: nat)
    requires Consistent(m0, nx, u) && Deleted(m0, m, s)
    ensures Consistent(m, nx, u) <==> PairGroups(m0, s) == {}
  {
    var m1 :| Leaving(m0, m1, s, 0) && m == Gone(m1, s);
    if PairGroups(m0, s) == {} {
      GoneKeeps(m0, m1, nx, u, s);
    } else {
      var g :| g in PairGroups(m0, s);
      PairStale(m0, m1, nx, u, s, g);
      assert m.groups == m1.groups;
    }
  }

  // ---------------------------------------------------------------- what every deletion keeps

  /** Who is in a group by the bitmaps also sits in it, and a group that counts users has just
      those; of the others some may still have a slot filled. */
  ghost predicate GroupSound(groups: map<nat, Group>, stas: map<nat, Sta>, u: nat, g: nat)
    requires g in groups
  {
    var gr := groups[g];
    && |gr.users| == u && OnlyOnce(gr.users)
    && (forall t :: t in stas && g in stas[t].groups ==> gr.userCnt > 0 && Used(t) in gr.users)
    && (forall j :: 0 <= j < u && gr.users[j].Used? ==>
          gr.users[j].sta in stas && (gr.userCnt > 0 ==> g in stas[gr.users[j].sta].groups))
    && (gr.userCnt == 0 || gr.userCnt == Filled(gr.users) >= 2)
  }

  ghost predicate Sound(m: Mu, nx: nat, u: nat) {
    && Sized(m, nx, u) && Lists(m) && m.groupCnt == |NonEmpty(m.groups)|
    && (forall g :: g in m.groups ==> GroupSound(m.groups, m.stas, u, g))
    && (forall t :: t in m.stas ==> m.stas[t].groups <= m.groups.Keys && m.stas[t].cnt == |m.stas[t].groups|)
  }

  /** A group that the station shared with one other, after the deletion. */
  lemma PairSound(m0: Mu, m: Mu, nx: nat, u: nat, s: nat, g: nat)
    requires Consistent(m0, nx, u) && s in m0.stas && Leaving(m0, m, s, 0) && g in PairGroups(m0, s)
    ensures g in m.groups && GroupSound(m.groups, Gone(m, s).stas, u, g)
  {
    PairStale(m0, m, nx, u, s, g);
    var t := PairOther(m0, nx, u, s, g);
    SeatOf(m0, nx, u, s, g);
    PairUsers(m0, m, u, s, g);
    forall x | x in m0.stas
      ensures g !in Gone(m, s).stas[x].groups
    {
      PairLeft(m0, m, u, s, g, t, x);
    }
  }

  lemma PairUsers(m0: Mu, m: Mu, u: nat, s: nat, g: nat)
    requires s in m0.stas && Leaving(m0, m, s, 0) && g in PairGroups(m0, s) && g > 0 && Linked(m0.groups, m0.stas, u)
    ensures g in m.groups && |m.groups[g].users| == u && OnlyOnce(m.groups[g].users)
    ensures forall j :: 0 <= j < u && m.groups[g].users[j].Used? ==> m.groups[g].users[j].sta in m.stas
  {
    assert Used(s) in m0.groups[g].users;
    assert m.groups[g] == Shrunk(m0.groups[g], s);
    SeatLeft(m0.groups[g].users, FirstAt(m0.groups[g].users, Used(s)));
  }

  lemma PairLeft(m0: Mu, m: Mu, u: nat, s: nat, g: nat, t: nat, x: nat)
    requires s in m0.stas && Leaving(m0, m, s, 0) && g in PairGroups(m0, s) && g > 0 && Other(m0, u, s, g, t)
    requires x in m0.stas
    ensures x in m.stas && g !in Gone(m, s).stas[x].groups
  {
    if x != s {
      assert Left(m0.stas[x], m.stas[x], Over(PairGroups(m0, s), 0));
      assert g in Over(PairGroups(m0, s), 0);
    }
  }

  /** A group that is none of these. */
  lemma RestSound(m0: Mu, m: Mu, nx: nat, u: nat, s: nat, g: nat)
    requires Consistent(m0, nx, u) && s in m0.stas && Leaving(m0, m, s, 0) && g in m0.groups && g !in PairGroups(m0, s)
    ensures g in m.groups && GroupSound(m.groups, Gone(m, s).stas, u, g)
    ensures m.groups[g].userCnt > 0 <==> m0.groups[g].userCnt > 0
  {
    RestKept(m0, m, nx, u, s, g);
    LinkedAt(m0.groups, m0.stas, u, g);
    RestMembers(m0, m, s, g);
    MembersSound(m0.groups, m.groups, m0.stas, Gone(m, s).stas, u, s, g);
  }

  lemma RestMembers(m0: Mu, m: Mu, s: nat, g: nat)
    requires s in m0.stas && Leaving(m0, m, s, 0) && g !in PairGroups(m0, s)
    ensures s in m.stas && Gone(m, s).stas.Keys == m0.stas.Keys && Gone(m, s).stas[s].groups == {}
    ensures forall t :: t in m0.stas && t != s ==> (g in Gone(m, s).stas[t].groups <==> g in m0.stas[t].groups)
  {
    forall t | t in m0.stas && t != s
      ensures t in m.stas && (g in m.stas[t].groups <==> g in m0.stas[t].groups)
    {
      assert Left(m0.stas[t], m.stas[t], Over(PairGroups(m0, s), 0));
    }
  }

  lemma MembersSound(groups0: map<nat, Group>, groups: map<nat, Group>, stas0: map<nat, Sta>, stas: map<nat, Sta>,
                     u: nat, s: nat, g: nat)
    requires g in groups0 && g in groups && GroupLinked(groups0, stas0, u, g) && groups[g].userCnt != 1
    requires MinusOne(groups0[g].users, groups[g].users, s) && groups[g].userCnt == Filled(groups[g].users)
    requires s in stas0 && stas.Keys == stas0.Keys && stas[s].groups == {}
    requires forall t :: t in stas0 && t != s ==> (g in stas[t].groups <==> g in stas0[t].groups)
    ensures GroupSound(groups, stas, u, g)
  {
    var users0, users := groups0[g].users, groups[g].users;
    forall j | 0 <= j < |users| && users[j].Used?
      ensures users[j].sta in stas && g in stas[users[j].sta].groups
    {
      assert users[j] in users;
      var k :| 0 <= k < |users0| && users0[k] == users[j];
    }
    forall t | t in stas && g in stas[t].groups
      ensures groups[g].userCnt > 0 && Used(t) in users
    {
      var k :| 0 <= k < |users| && users[k] == Used(t);
      assert k in FilledAt(users);
    }
  }

  /** Whatever the groups of the station: afterwards the bitmaps and the counters agree, the number
      of groups in use is right, and who is in a group has a slot in it. */
  lemma DeletionSound(m0: Mu, m: Mu, nx: nat, u: nat, s: nat)
    requires Consistent(m0, nx, u) && Deleted(m0, m, s)
    ensures Sound(m, nx, u)
  {
    var m1 :| Leaving(m0, m1, s, 0) && m == Gone(m1, s);
    GoneLists(m0, m1, nx, u, s);
    forall g | g in m0.groups
      ensures g in m1.groups && GroupSound(m1.groups, m.stas, u, g)
    {
      if g in PairGroups(m0, s) { PairSound(m0, m1, nx, u, s, g); } else { RestSound(m0, m1, nx, u, s, g); }
    }
    GroupsLeft(m0, m1, nx, u, s);
    forall t | t in m.stas
      ensures m.stas[t].groups <= m.groups.Keys && m.stas[t].cnt == |m.stas[t].groups|
    {
      if t != s { assert Left(m0.stas[t], m1.stas[t], Over(PairGroups(m0, s), 0)); }
    }
  }

  lemma GroupsLeft(m0: Mu, m: Mu, nx: nat, u: nat, s: nat)
    requires Consistent(m0, nx, u) && s in m0.stas && Leaving(m0, m, s, 0)
    ensures m.groupCnt == |NonEmpty(m.groups)|
  {
    var pairs := PairGroups(m0, s);
    forall g | g in m0.groups
      ensures m.groups[g].userCnt > 0 <==> m0.groups[g].userCnt > 0 && g !in pairs
    {
      if g in pairs { PairStale(m0, m, nx, u, s, g); } else { RestKept(m0, m, nx, u, s, g); }
    }
    assert Over(pairs, 0) == pairs;
    FewerInUse(m0.groups, m.groups, pairs);
  }

  lemma FewerInUse(groups0: map<nat, Group>, groups: map<nat, Group>, pairs: set<nat>)
    requires groups.Keys == groups0.Keys && forall g :: g in pairs ==> g in groups0 && groups0[g].userCnt > 0
    requires forall g :: g in groups0 ==> (groups[g].userCnt > 0 <==> groups0[g].userCnt > 0 && g !in pairs)
    ensures |NonEmpty(groups)| == |NonEmpty(groups0)| - |pairs|
  {
    assert NonEmpty(groups0) == NonEmpty(groups) + pairs;
    DisjointSize(NonEmpty(groups), pairs);
  }

  /** When a stale slot is emptied later, as a group is replaced, its station is put on the update
      list at last; but its count of groups goes down once more. */
  lemma StaleEviction(m: Mu, g: nat, j: nat)
    requires g in m.groups && j < |m.groups[g].users| && m.groups[g].users[j].Used?
    requires m.groups[g].users[j].sta in m.stas
    requires var x := m.stas[m.groups[g].users[j].sta]; g !in x.groups && x.cnt == |x.groups|
    ensures
      var t, m' := m.groups[g].users[j].sta, Evicted(m, g, j);
      && t in m'.updateSta && m'.stas[t].groups == m.stas[t].groups && m'.stas[t].cnt == |m'.stas[t].groups| - 1
  {
    var x := m.stas[m.groups[g].users[j].sta];
    assert x.groups - {g} == x.groups;
  }

  // ---------------------------------------------------------------- what the firmware hears

  /** The other user of a pair of the station is not due for an update. */
  ghost predicate Missed(m: Mu, s: nat)
    requires s in m.stas
  {
    exists g, t :: g in PairGroups(m, s) && t in m.stas && t != s && g in m.stas[t].groups && t !in m.updateSta
  }

  /** A station that loses no group keeps its places. */
  lemma PlacesKept(m0: Mu, m: Mu, nx: nat, u: nat, s: nat, t: nat)
    requires Consistent(m0, nx, u) && s in m0.stas && Leaving(m0, m, s, 0) && t in m0.stas && t != s
    requires forall g :: g in PairGroups(m0, s) ==> g !in m0.stas[t].groups
    ensures Places(m.groups, Gone(m, s).stas, t) == Places(m0.groups, m0.stas, t)
  {
    assert m.stas[t].groups == m0.stas[t].groups by {
      assert Left(m0.stas[t], m.stas[t], Over(PairGroups(m0, s), 0));
    }
    ShrunkPlaces(m0.groups, m.groups, m0.stas, Gone(m, s).stas, s, Over(m0.stas[s].groups, 0), t);
  }

  lemma ShrunkPlaces(groups0: map<nat, Group>, groups: map<nat, Group>, stas0: map<nat, Sta>, stas: map<nat, Sta>,
                     s: nat, those: set<nat>, t: nat)
    requires groups.Keys == groups0.Keys && GroupsShrunk(groups0, groups, s, those) && t != s
    requires t in stas0 && t in stas && stas[t].groups == stas0[t].groups
    ensures Places(groups, stas, t) == Places(groups0, stas0, t)
  {
    forall g, j | g in groups0 && 0 <= j < |groups0[g].users|
      ensures j < |groups[g].users| == |groups0[g].users|
      ensures groups[g].users[j] == Used(t) <==> groups0[g].users[j] == Used(t)
    {
      assert groups[g] == if g in those then Shrunk(groups0[g], s) else groups0[g];
    }
    var p0, p := Places(groups0, stas0, t), Places(groups, stas, t);
    assert forall x :: x in p ==> x in p0;
    assert forall x :: x in p0 ==> x in p;
  }

  lemma PlacesLost(m0: Mu, m: Mu, nx: nat, u: nat, s: nat, t: nat, g: nat)
    requires Consistent(m0, nx, u) && s in m0.stas && Leaving(m0, m, s, 0) && t in m0.stas && t != s
    requires g in PairGroups(m0, s) && g in m0.stas[t].groups
    ensures Places(m.groups, Gone(m, s).stas, t) != Places(m0.groups, m0.stas, t)
  {
    SeatOf(m0, nx, u, t, g);
    PlaceIn(m0.groups, m0.stas, t, g);
    LostGroup(m0, m, s, t, g);
  }

  lemma PlaceIn(groups: map<nat, Group>, stas: map<nat, Sta>, t: nat, g: nat)
    requires t in stas && g in groups && g in stas[t].groups && Used(t) in groups[g].users
    ensures exists p :: p in Places(groups, stas, t) && p.0 == g
  {
    var users := groups[g].users;
    var j :| 0 <= j < |users| && users[j] == Used(t);
    assert (g, j) in Places(groups, stas, t);
  }

  lemma LostGroup(m0: Mu, m: Mu, s: nat, t: nat, g: nat)
    requires s in m0.stas && Leaving(m0, m, s, 0) && t in m0.stas && t != s && g in PairGroups(m0, s) && g > 0
    ensures forall p :: p in Places(m.groups, Gone(m, s).stas, t) ==> p.0 != g
  {
    assert Left(m0.stas[t], m.stas[t], Over(PairGroups(m0, s), 0));
    assert g in Over(PairGroups(m0, s), 0);
    assert g !in m.stas[t].groups;
  }

  /** After a deletion the firmware is in touch with the stations not due for an update if
      and only if the other users of the pairs of the station are due for one: the
      deletion itself does not put them on the list. */
  lemma DeletionTold(m0: Mu, m: Mu, nx: nat, u: nat, s: nat, fw: map<nat, set<(nat, nat)>>)
    requires Consistent(m0, nx, u) && Deleted(m0, m, s) && InTouch(m0, fw)
    ensures InTouchBut(m, fw, s) <==> !Missed(m0, s)
  {
    var m1 :| Leaving(m0, m1, s, 0) && m == Gone(m1, s);
    if Missed(m0, s) {
      var g, t :| g in PairGroups(m0, s) && t in m0.stas && t != s && g in m0.stas[t].groups && t !in m0.updateSta;
      PlacesLost(m0, m1, nx, u, s, t, g);
      assert t !in m.updateSta;
    } else {
      forall t | t in m.stas && t != s && t !in m.updateSta
        ensures Heard(fw, t) == Places(m.groups, m.stas, t)
      {
        assert forall g :: g in PairGroups(m0, s) ==> g !in m0.stas[t].groups;
        PlacesKept(m0, m1, nx, u, s, t);
      }
    }
  }

  /** The station itself has no place any more. */
  lemma Forgotten(m0: Mu, m: Mu, s: nat, fw: map<nat, set<(nat, nat)>>)
    requires Deleted(m0, m, s) && InTouchBut(m, fw, s)
    ensures InTouch(m, fw[s := {}])
  {
    assert Places(m.groups, m.stas, s) == {};
  }

  /** With two users a group, as shipped, every group of a station is a pair. */
  lemma AllPairs(m: Mu, nx: nat, s: nat)
    requires Consistent(m, nx, 2) && s in m.stas
    ensures PairGroups(m, s) == m.stas[s].groups
  {
    forall g | g in m.stas[s].groups
      ensures g in PairGroups(m, s)
    {
      SeatOf(m, nx, 2, s, g);
      FilledAtMost(m.groups[g].users);
      var j :| 0 <= j < 2 && m.groups[g].users[j] == Used(s);
      assert j in FilledAt(m.groups[g].users);
    }
  }

  /** The group of a pair that was broken has a user in a slot and none by its counter. */
  lemma DeletedStale(m0: Mu, m: Mu, nx: nat, u: nat, s: nat, g: nat)
    requires Consistent(m0, nx, u) && Deleted(m0, m, s) && g in PairGroups(m0, s)
    ensures g in m.groups && m.groups[g].userCnt == 0 && Filled(m.groups[g].users) == 1
  {
    var m1 :| Leaving(m0, m1, s, 0) && m == Gone(m1, s);
    PairStale(m0, m1, nx, u, s, g);
  }
}
