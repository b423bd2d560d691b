/** Which active stations share a group after a run of the group work: the groups used in
    the run are at the head of the list, out of reach of the replacement at its end. */
module MuShare {
  import opened Collections
  import opened MuModel
  import opened MuSteps
  import opened MuSelect

  /** The stations share one of the first `t` groups of the list. */
  ghost predicate Paired(m: Mu, t: nat, a: nat, b: nat) {
    exists g :: g in m.activeGroups[..if t <= |m.activeGroups| then t else 0] && Together(m, a, b, g)
  }

  ghost predicate Together(m: Mu, a: nat, b: nat, g: nat) {
    a in m.stas && b in m.stas && g in m.stas[a].groups && g in m.stas[b].groups
  }

  /** All of `pairs` share one of the first `t` groups, unless `t` is past the list. */
  ghost predicate AllPaired(m: Mu, t: nat, pairs: seq<(nat, nat)>) {
    t <= |m.activeGroups| ==> forall p :: p in pairs ==> Paired(m, t, p.0, p.1)
  }

  /** The pairs of `x` with each of `ys`. */
  function Row(x: nat, ys: seq<nat>): (r: seq<(nat, nat)>)
    ensures |r| == |ys| && forall k :: 0 <= k < |ys| ==> r[k] == (x, ys[k])
  {
    seq(|ys|, k requires 0 <= k < |ys| => (x, ys[k]))
  }

  /** The first station with each of the others. */
  function PairsOf(us: seq<nat>): seq<(nat, nat)>
    requires us != []
  {
    Row(us[0], us[1..])
  }

  lemma {:induction false} WithoutKeepsFront(s: seq<nat>, g: nat, t: nat, x: nat)
    requires NoDup(s) && t <= |s| && x in s[..t] && x != g
    ensures x in Without(s, g)[..if t <= |Without(s, g)| then t else |Without(s, g)|]
  {
    if s[0] == g {
      var r := Without(s[1..], g);
      WithoutAbsent(s[1..], g);
      assert x in s[1..t];
      assert r == s[1..];
    } else if x == s[0] {
      assert Without(s, g)[0] == x;
    } else {
      assert s[..t] == [s[0]] + s[1..][..t - 1];
      WithoutKeepsFront(s[1..], g, t - 1, x);
      var r := Without(s[1..], g);
      var n := if t - 1 <= |r| then t - 1 else |r|;
      assert ([s[0]] + r)[..n + 1] == [s[0]] + r[..n];
    }
  }

  lemma {:induction false} WithoutAbsent(s: seq<nat>, g: nat)
    requires g !in s
    ensures Without(s, g) == s
  {
    if s != [] {
      WithoutAbsent(s[1..], g);
    }
  }

  /** Moving a group to the head keeps the first `t` among the first `t + 1`. */
  lemma FrontKept(s: seq<nat>, g: nat, t: nat, x: nat)
    requires NoDup(s) && g in s && t < |s| && (x == g || x in s[..t])
    ensures |ToFront(s, g)| == |s| && x in ToFront(s, g)[..t + 1]
  {
    ToFrontNoDup(s, g);
    var r := Without(s, g);
    assert ToFront(s, g)[..t + 1] == [g] + r[..t];
    if x != g {
      WithoutKeepsFront(s, g, t, x);
    }
  }

  /** An operation on group `g` of the list after which the stations `us` are in it, and
      which takes members out of no group but the last of the list. */
  ghost predicate Grouped(m: Mu, m': Mu, us: seq<nat>, g: nat) {
    && g in m.activeGroups && m'.activeGroups == ToFront(m.activeGroups, g) && m'.stas.Keys == m.stas.Keys
    && (forall s :: s in us ==> s in m.stas && g in m'.stas[s].groups)
    && (forall s, h :: s in m.stas && h in m.stas[s].groups && h != m.activeGroups[|m.activeGroups| - 1] ==>
          h in m'.stas[s].groups)
  }

  lemma ReusedGroups(m: Mu, m': Mu, us: seq<nat>, g: nat)
    requires Lists(m) && (forall s :: s in us ==> s in m.stas && m.stas[s].groups <= m.groups.Keys) && us != []
    requires Reused(m, m', us, g)
    ensures Grouped(m, m', us, g)
  {
    assert us[0] in us;
  }

  lemma CompletedGroups(m: Mu, m': Mu, u: nat, us: seq<nat>, g: nat)
    requires Lists(m) && (forall s :: s in us ==> s in m.stas)
    requires Completed(m, m', u, us, g)
    ensures Grouped(m, m', us, g)
  {
  }

  lemma ReplacedGroups(m: Mu, m': Mu, us: seq<nat>, g: nat)
    requires Lists(m) && (forall s :: s in us ==> s in m.stas)
    requires Replaced(m, m', us, g)
    ensures Grouped(m, m', us, g)
  {
  }

  /** However a group was found for the stations, they share it. */
  lemma CreatedPairs(m: Mu, m': Mu, nx: nat, u: nat, us: seq<nat>, g: nat, created: bool, t: nat,
                     pairs: seq<(nat, nat)>)
    requires Consistent(m, nx, u) && Candidates(m, u, us) && AllPaired(m, t, pairs)
    requires Outcome(m, m', u, us, g, created)
    ensures AllPaired(m', t + 1, pairs + PairsOf(us))
  {
    if Reused(m, m', us, g) {
      ReusedGroups(m, m', us, g);
    } else if Completed(m, m', u, us, g) {
      CompletedGroups(m, m', u, us, g);
    } else {
      ReplacedGroups(m, m', us, g);
    }
    GroupedPairs(m, m', us, g, t, pairs);
  }

  lemma GroupedPairs(m: Mu, m': Mu, us: seq<nat>, g: nat, t: nat, pairs: seq<(nat, nat)>)
    requires NoDup(m.activeGroups) && Grouped(m, m', us, g) && AllPaired(m, t, pairs) && us != []
    ensures AllPaired(m', t + 1, pairs + PairsOf(us))
  {
    ToFrontNoDup(m.activeGroups, g);
    if t + 1 <= |m.activeGroups| {
      forall p | p in pairs + PairsOf(us)
        ensures Paired(m', t + 1, p.0, p.1)
      {
        if p in PairsOf(us) {
          FrontKept(m.activeGroups, g, t, g);
          assert us[0] in us;
          assert Together(m', p.0, p.1, g);
        } else {
          StillPaired(m, m', us, g, t, p.0, p.1);
        }
      }
    }
  }

  lemma StillPaired(m: Mu, m': Mu, us: seq<nat>, g: nat, t: nat, a: nat, b: nat)
    requires NoDup(m.activeGroups) && Grouped(m, m', us, g) && t < |m.activeGroups| && Paired(m, t, a, b)
    ensures Paired(m', t + 1, a, b)
  {
    var h :| h in m.activeGroups[..t] && Together(m, a, b, h);
    FrontKept(m.activeGroups, g, t, h);
    var k :| 0 <= k < t && m.activeGroups[k] == h;
    assert h != m.activeGroups[|m.activeGroups| - 1];
    assert Together(m', a, b, h);
  }

  /** How many pairs `k` stations make. */
  function Pairs(k: nat): (n: nat)
    ensures 2 * n == k * (k - 1)
  {
    if k == 0 then 0 else Pairs(k - 1) + k - 1
  }

  /** The pairs of a list, in the order in which the group work takes them. */
  function PairList(list: seq<nat>): (r: seq<(nat, nat)>)
    ensures |r| == Pairs(|list|)
  {
    if list == [] then [] else Row(list[0], list[1..]) + PairList(list[1..])
  }

  lemma {:induction false} PairListAt(list: seq<nat>, j: nat) returns (a: nat, b: nat)
    requires j < |PairList(list)|
    ensures a < b < |list| && PairList(list)[j] == (list[a], list[b])
  {
    if j < |list| - 1 {
      a, b := 0, j + 1;
    } else {
      a, b := PairListAt(list[1..], j - (|list| - 1));
      a, b := a + 1, b + 1;
    }
  }

  lemma {:induction false} PairListHas(list: seq<nat>, a: nat, b: nat) returns (j: nat)
    requires a < b < |list|
    ensures j < |PairList(list)| && PairList(list)[j] == (list[a], list[b])
  {
    if a == 0 {
      j := b - 1;
    } else {
      j := PairListHas(list[1..], a - 1, b - 1);
      j := j + (|list| - 1);
    }
  }

  ghost function SetOf(p: (nat, nat)): set<nat> {
    {p.0, p.1}
  }

  /** Each pair is there once, and not the other way round. */
  lemma {:induction false} PairListOnce(list: seq<nat>, i: nat, j: nat)
    requires NoDup(list) && i < j < |PairList(list)|
    ensures SetOf(PairList(list)[i]) != SetOf(PairList(list)[j])
  {
    var n := |list| - 1;
    var x, tail := list[0], list[1..];
    if j < n {
      assert list[j + 1] in SetOf(PairList(list)[j]);
    } else if i < n {
      var a, b := PairListAt(tail, j - n);
      assert x in SetOf(PairList(list)[i]);
    } else {
      PairListOnce(tail, i - n, j - n);
    }
  }

  /** The stations share a group. */
  ghost predicate Share(m: Mu, a: nat, b: nat) {
    exists g :: Together(m, a, b, g)
  }

  lemma KeepsTwice(m0: Mu, m: Mu, m': Mu)
    requires KeepsActive(m0, m) && KeepsActive(m, m')
    ensures KeepsActive(m0, m')
  {
  }

  /** The first `i` stations of the list have been in this run. */
  ghost predicate Updated(m: Mu, list: seq<nat>, i: nat)
    requires i <= |list|
  {
    forall k :: 0 <= k < i ==> list[k] in m.stas && m.stas[list[k]].lastUpdate == m.updateCount
  }

  /** What is left of the `nx` new groups allowed after `t` attempts that created `n` groups:
      each was counted twice. */
  ghost predicate Allowance(nx: nat, left: int, t: nat, n: nat) {
    left == nx - 2 * n && n <= t && (nx % 2 == 0 ==> left >= 0)
  }

  lemma PairedSame(m: Mu, m': Mu, t: nat, pairs: seq<(nat, nat)>)
    requires AllPaired(m, t, pairs) && m'.activeGroups == m.activeGroups && SameGroups(m.stas, m'.stas)
    ensures AllPaired(m', t, pairs)
  {
    if t <= |m.activeGroups| {
      forall p | p in pairs
        ensures Paired(m', t, p.0, p.1)
      {
        var g :| g in m.activeGroups[..t] && Together(m, p.0, p.1, g);
        assert Together(m', p.0, p.1, g);
      }
    }
  }

  /** The first active station is done with: it notes the number of the run and is dropped. */
  function Dropped(m: Mu): Mu
    requires m.activeSta != [] && m.activeSta[0] in m.stas
  {
    var s := m.activeSta[0];
    m.(stas := m.stas[s := m.stas[s].(lastUpdate := m.updateCount)], activeSta := m.activeSta[1..])
  }

  lemma DroppedKeeps(m: Mu, nx: nat, u: nat, fw: map<nat, set<(nat, nat)>>)
    requires Consistent(m, nx, u) && m.activeSta != []
    ensures m.activeSta[0] in m.stas && Consistent(Dropped(m), nx, u) && (InTouch(m, fw) ==> InTouch(Dropped(m), fw))
    ensures SameGroups(m.stas, Dropped(m).stas) && Dropped(m).activeGroups == m.activeGroups
  {
    var s := m.activeSta[0];
    SetStaKeeps(m, nx, u, s, m.stas[s].(lastUpdate := m.updateCount), fw);
    assert m.activeSta == [s] + m.activeSta[1..];
  }

  lemma DroppedUpdated(m0: Mu, m1: Mu, m: Mu, list: seq<nat>, i: nat)
    requires i < |list| && m0.activeSta == list[i..] && KeepsActive(m0, m1) && Updated(m0, list, i)
    requires m1.activeSta[0] in m1.stas && m == Dropped(m1)
    ensures m.activeSta == list[i + 1..] && m.updateCount == m0.updateCount
    ensures SameTraffic(m0.stas, m.stas) && Updated(m, list, i + 1)
  {
    assert list[i..][0] == list[i] && list[i..][1..] == list[i + 1..];
  }

  // ---------------------------------------------------------------- in order

  /** The pairs of `list` were taken in order, up to `rest`, or until no more groups were
      allowed, in at most as many attempts. */
  ghost predicate InOrder(list: seq<nat>, pairs: seq<(nat, nat)>, rest: seq<(nat, nat)>, left: int, t: nat) {
    t <= |pairs| && (pairs + rest == PairList(list) || (left == 0 && pairs <= PairList(list)))
  }

  lemma InOrderStarts(list: seq<nat>, left: int)
    ensures InOrder(list, [], PairList(list), left, 0)
  {
    assert [] + PairList(list) == PairList(list);
  }

  /** One attempt, for the first station of `act` and some of those that follow position `pos`. */
  lemma InOrderNext(list: seq<nat>, act: seq<nat>, pos: nat, pos': nat, us: seq<nat>, pairs: seq<(nat, nat)>,
                    left: int, left': int, t: nat)
    requires pos < pos' < |act| && us == [act[0]] + act[pos + 1..pos' + 1] && left != 0
    requires InOrder(list, pairs, RestOf(act, pos), left, t)
    ensures InOrder(list, pairs + PairsOf(us), RestOf(act, pos'), left', t + 1)
    ensures ComeNext(list, pairs, us, RestOf(act, pos'))
  {
    RestSplit(act, pos, pos', us);
    assert pairs + PairsOf(us) + RestOf(act, pos') == pairs + (PairsOf(us) + RestOf(act, pos'));
  }

  /** After `pairs` come those of `us`, and then `rest`. */
  ghost predicate ComeNext(list: seq<nat>, pairs: seq<(nat, nat)>, us: seq<nat>, rest: seq<(nat, nat)>) {
    us != [] && pairs + (PairsOf(us) + rest) == PairList(list)
  }

  /** The pairs still to be taken when the first station of the list was paired with those up
      to position `pos`. */
  function RestOf(act: seq<nat>, pos: nat): seq<(nat, nat)>
    requires pos < |act|
  {
    Row(act[0], act[pos + 1..]) + PairList(act[1..])
  }

  lemma RestSplit(act: seq<nat>, pos: nat, pos': nat, us: seq<nat>)
    requires pos < pos' < |act| && us == [act[0]] + act[pos + 1..pos' + 1]
    ensures RestOf(act, pos) == PairsOf(us) + RestOf(act, pos')
  {
    assert us[1..] == act[pos + 1..pos' + 1];
    assert Row(act[0], act[pos + 1..]) == PairsOf(us) + Row(act[0], act[pos' + 1..]);
    assert PairsOf(us) + Row(act[0], act[pos' + 1..]) + PairList(act[1..]) == PairsOf(us) + RestOf(act, pos');
  }

  lemma InOrderRow(list: seq<nat>, act: seq<nat>, pos: nat, pairs: seq<(nat, nat)>, left: int, t: nat)
    requires pos < |act| && InOrder(list, pairs, RestOf(act, pos), left, t) && (left == 0 || pos == |act| - 1)
    ensures InOrder(list, pairs, PairList(act[1..]), left, t)
  {
    if pos == |act| - 1 { assert RestOf(act, pos) == PairList(act[1..]); }
  }

  /** When the list was gone through. */
  ghost predicate Ended(nx: nat, list: seq<nat>, pairs: seq<(nat, nat)>, t: nat, n: nat) {
    && t <= |pairs| && pairs <= PairList(list) && n <= t && (nx % 2 == 0 ==> 2 * n <= nx)
    && (|pairs| == Pairs(|list|) || 2 * n == nx)
  }

  lemma InOrderEnds(nx: nat, list: seq<nat>, pairs: seq<(nat, nat)>, left: int, t: nat, n: nat)
    requires InOrder(list, pairs, [], left, t) && Allowance(nx, left, t, n)
    ensures Ended(nx, list, pairs, t, n)
  {
    assert pairs + [] == pairs;
  }

  /** How many of the pairs of `k` stations get a group of their own: half of an even number of
      groups at most, for each group created is counted twice. */
  function Quota(nx: nat, k: nat): (q: nat)
    ensures q <= Pairs(k)
  {
    if nx % 2 == 0 && nx / 2 < Pairs(k) then nx / 2 else Pairs(k)
  }

  /** All the stations listed share a group with each other. */
  ghost predicate AllTogether(m: Mu, list: seq<nat>) {
    forall a, b :: 0 <= a < b < |list| ==> Share(m, list[a], list[b])
  }

  /** The number of the run is never 0, which means that a station was in none. */
  function NextRun(count: nat): (n: nat)
    ensures 1 <= n < 0x1_0000 && (count < 0x1_0000 ==> n == if count == 0xffff then 1 else count + 1)
  {
    if (count + 1) % 0x1_0000 == 0 then 1 else (count + 1) % 0x1_0000
  }

  /** Whatever groups there were, if there are at least as many as pairs, the first pairs of the
      list share a group after the run, up to the quota. */
  lemma WorkShares(m: Mu, nx: nat, u: nat, t: nat, pairs: seq<(nat, nat)>, list: seq<nat>, n: nat)
    requires Consistent(m, nx, u) && AllPaired(m, t, pairs) && Ended(nx, list, pairs, t, n)
    ensures Pairs(|list|) <= nx ==> FirstShare(m, list, Quota(nx, |list|))
  {
    ListSize(m, nx, u);
    QuotaReached(nx, Pairs(|list|), |pairs|, t, n, Quota(nx, |list|));
    if Pairs(|list|) <= nx {
      TakenShare(m, t, pairs, list, Quota(nx, |list|));
    }
  }

  lemma QuotaReached(nx: nat, all: nat, taken: nat, t: nat, n: nat, q: nat)
    requires t <= taken <= all && n <= t && (nx % 2 == 0 ==> 2 * n <= nx) && (taken == all || 2 * n == nx)
    requires q == if nx % 2 == 0 && nx / 2 < all then nx / 2 else all
    ensures q <= taken && (n == t == taken ==> q == n)
  {
  }

  lemma TakenShare(m: Mu, t: nat, pairs: seq<(nat, nat)>, list: seq<nat>, q: nat)
    requires AllPaired(m, t, pairs) && t <= |m.activeGroups| && pairs <= PairList(list) && q <= |pairs|
    ensures FirstShare(m, list, q)
  {
    forall j | 0 <= j < q
      ensures Share(m, PairList(list)[j].0, PairList(list)[j].1)
    {
      PairShares(m, t, pairs, j);
    }
  }

  lemma PairShares(m: Mu, t: nat, pairs: seq<(nat, nat)>, j: nat)
    requires AllPaired(m, t, pairs) && t <= |m.activeGroups| && j < |pairs|
    ensures Share(m, pairs[j].0, pairs[j].1)
  {
    var p := pairs[j];
    assert p in pairs;
    assert Paired(m, t, p.0, p.1);
  }

  /** The first `q` pairs of the list share a group each. */
  ghost predicate FirstShare(m: Mu, list: seq<nat>, q: nat)
    requires q <= Pairs(|list|)
  {
    forall j :: 0 <= j < q ==> Share(m, PairList(list)[j].0, PairList(list)[j].1)
  }

  lemma AllShare(m: Mu, list: seq<nat>)
    requires FirstShare(m, list, Pairs(|list|))
    ensures AllTogether(m, list)
  {
    forall a, b | 0 <= a < b < |list|
      ensures Share(m, list[a], list[b])
    {
      var j := PairListHas(list, a, b);
    }
  }

  // ---------------------------------------------------------------- no more than were created

  ghost function Users(us: seq<nat>): set<nat> {
    set s | s in us
  }

  /** Those of the list that share a group had one created for them. */
  ghost predicate OnlyMade(m: Mu, list: seq<nat>, made: seq<set<nat>>) {
    forall a, b :: 0 <= a < b < |list| && Share(m, list[a], list[b]) ==> {list[a], list[b]} in made
  }

  /** None of those of the list share a group. */
  ghost predicate AllApart(m: Mu, list: seq<nat>) {
    forall a, b :: 0 <= a < b < |list| ==> !Share(m, list[a], list[b])
  }

  lemma ApartSame(m: Mu, m': Mu, list: seq<nat>)
    requires m'.stas == m.stas
    ensures AllApart(m', list) <==> AllApart(m, list)
  {
    forall a, b
      ensures Share(m', a, b) <==> Share(m, a, b)
    {
      assert forall g :: Together(m', a, b, g) <==> Together(m, a, b, g);
    }
  }

  lemma CountKeeps(m: Mu, nx: nat, u: nat, n: nat, fw: map<nat, set<(nat, nat)>>)
    requires Consistent(m, nx, u)
    ensures Consistent(m.(updateCount := n), nx, u) && (InTouch(m, fw) ==> InTouch(m.(updateCount := n), fw))
  {
  }

  lemma ToWatch(m0: Mu, m: Mu, u: nat) returns (list: seq<nat>)
    requires m == m0.(updateCount := m.updateCount) && NoDup(m0.activeSta)
    ensures Watched(u, list) && AllApart(m, list) && (list == [] || list == m0.activeSta)
    ensures u == 2 && AllApart(m0, m0.activeSta) ==> list == m0.activeSta
  {
    ApartSame(m0, m, m0.activeSta);
    list := if u == 2 && AllApart(m0, m0.activeSta) then m0.activeSta else [];
  }

  lemma MadeSame(m: Mu, m': Mu, list: seq<nat>, made: seq<set<nat>>)
    requires OnlyMade(m, list, made) && SameGroups(m.stas, m'.stas)
    ensures OnlyMade(m', list, made)
  {
    forall a, b | 0 <= a < b < |list| && Share(m', list[a], list[b])
      ensures Share(m, list[a], list[b])
    {
      var g :| Together(m', list[a], list[b], g);
      assert Together(m, list[a], list[b], g);
    }
  }

  /** The stations of a group are those it was created for. */
  lemma MadeMore(m: Mu, m': Mu, us: seq<nat>, g: nat, list: seq<nat>, made: seq<set<nat>>)
    requires OnlyMade(m, list, made) && NoDup(list) && Candidates(m, 2, us) && m'.stas.Keys == m.stas.Keys
    requires Replaced(m, m', us, g)
    ensures OnlyMade(m', list, made + [Users(us)])
  {
    forall a, b | 0 <= a < b < |list| && Share(m', list[a], list[b])
      ensures {list[a], list[b]} in made + [Users(us)]
    {
      var h :| Together(m', list[a], list[b], h);
      if h == g {
        TheTwo(us, list[a], list[b]);
        assert (made + [Users(us)])[|made|] == {list[a], list[b]};
      } else {
        assert Together(m, list[a], list[b], h);
        assert Share(m, list[a], list[b]);
      }
    }
  }

  lemma TheTwo(us: seq<nat>, x: nat, y: nat)
    requires |us| == 2 && x in us && y in us && x != y
    ensures Users(us) == {x, y}
  {
  }

  /** The stations watched were apart before the run, and a group has room for two. */
  ghost predicate Watched(u: nat, list: seq<nat>) {
    list == [] || (u == 2 && NoDup(list))
  }

  /** Of stations that were apart, a group was created for each pair taken, in groups of two. */
  ghost predicate Noted(list: seq<nat>, pairs: seq<(nat, nat)>, made: seq<set<nat>>, t: nat) {
    list == [] || (t == |made| == |pairs| && forall k :: 0 <= k < |made| ==> made[k] == SetOf(pairs[k]))
  }

  /** A run of the group work so far: `left` new groups are allowed after `t` attempts, `pairs`
      were put together, and groups were created for the stations of `made`. */
  ghost predicate Running(m: Mu, nx: nat, left: int, t: nat, pairs: seq<(nat, nat)>, list: seq<nat>,
                          made: seq<set<nat>>)
  {
    AllPaired(m, t, pairs) && Allowance(nx, left, t, |made|) && OnlyMade(m, list, made) && Noted(list, pairs, made, t)
  }

  lemma RunningSame(m: Mu, m': Mu, nx: nat, left: int, t: nat, pairs: seq<(nat, nat)>, list: seq<nat>,
                    made: seq<set<nat>>)
    requires Running(m, nx, left, t, pairs, list, made)
    requires m'.activeGroups == m.activeGroups && SameGroups(m.stas, m'.stas)
    ensures Running(m', nx, left, t, pairs, list, made)
  {
    PairedSame(m, m', t, pairs);
    MadeSame(m, m', list, made);
  }

  /** One attempt more; if stations are watched, for the next pair of them. */
  lemma RunningMore(m: Mu, m': Mu, nx: nat, u: nat, us: seq<nat>, g: nat, created: bool, left: int, left': int, t: nat,
                    pairs: seq<(nat, nat)>, rest: seq<(nat, nat)>, list: seq<nat>, made: seq<set<nat>>,
                    made': seq<set<nat>>)
    requires Consistent(m, nx, u) && Candidates(m, u, us) && Running(m, nx, left, t, pairs, list, made)
    requires left != 0 && Watched(u, list) && KeepsActive(m, m') && Outcome(m, m', u, us, g, created)
    requires list == [] || ComeNext(list, pairs, us, rest)
    requires left' == if created then left - 2 else left
    requires made' == if created then made + [Users(us)] else made
    ensures Running(m', nx, left', t + 1, pairs + PairsOf(us), list, made')
  {
    CreatedPairs(m, m', nx, u, us, g, created, t, pairs);
    MadeStep(m, m', u, us, g, created, list, made, made');
    AllowanceNext(nx, left, left', t, |made|, created);
    if list != [] { NotedMore(m, m', us, g, created, t, pairs, rest, list, made, made'); }
  }

  lemma NotedMore(m: Mu, m': Mu, us: seq<nat>, g: nat, created: bool, t: nat, pairs: seq<(nat, nat)>,
                  rest: seq<(nat, nat)>, list: seq<nat>, made: seq<set<nat>>, made': seq<set<nat>>)
    requires Candidates(m, 2, us) && NoDup(list) && list != [] && Outcome(m, m', 2, us, g, created)
    requires OnlyMade(m, list, made) && Noted(list, pairs, made, t) && ComeNext(list, pairs, us, rest)
    requires made' == if created then made + [Users(us)] else made
    ensures Noted(list, pairs + PairsOf(us), made', t + 1)
  {
    NewPair(pairs, us, rest, list, made);
    TheTwo(us, us[0], us[1]);
    if !created {
      var j := |pairs|;
      var a, b := PairListAt(list, j);
      assert Together(m, us[0], us[1], g) by { assert us[0] in us && us[1] in us; }
      assert Share(m, list[a], list[b]);
      assert false;
    }
  }

  /** No group was created for the next pair. */
  lemma NewPair(pairs: seq<(nat, nat)>, us: seq<nat>, rest: seq<(nat, nat)>, list: seq<nat>, made: seq<set<nat>>)
    requires |us| == 2 && NoDup(list) && ComeNext(list, pairs, us, rest) && |made| == |pairs|
    requires forall k :: 0 <= k < |made| ==> made[k] == SetOf(pairs[k])
    ensures |PairList(list)| > |pairs| && PairList(list)[|pairs|] == (us[0], us[1])
    ensures PairsOf(us) == [(us[0], us[1])] && {us[0], us[1]} !in made
  {
    var all := PairList(list);
    assert all[|pairs|] == (PairsOf(us) + rest)[0] == (us[0], us[1]);
    forall k | 0 <= k < |made|
      ensures made[k] != {us[0], us[1]}
    {
      assert all[k] == pairs[k];
      PairListOnce(list, k, |pairs|);
    }
  }

  lemma AllowanceNext(nx: nat, left: int, left': int, t: nat, n: nat, created: bool)
    requires Allowance(nx, left, t, n) && left != 0 && left' == if created then left - 2 else left
    ensures Allowance(nx, left', t + 1, if created then n + 1 else n)
  {
  }

  lemma MadeStep(m: Mu, m': Mu, u: nat, us: seq<nat>, g: nat, created: bool, list: seq<nat>, made: seq<set<nat>>,
                 made': seq<set<nat>>)
    requires Candidates(m, u, us) && OnlyMade(m, list, made) && Watched(u, list) && m'.stas.Keys == m.stas.Keys
    requires Outcome(m, m', u, us, g, created) && made' == if created then made + [Users(us)] else made
    ensures OnlyMade(m', list, made')
  {
    if list == [] {
    } else if created {
      MadeMore(m, m', us, g, list, made);
    } else {
      MadeSame(m, m', list, made);
    }
  }

  /** What a run does for the stations active before it, `k` of them: the first pairs of the list
      share a group afterwards, up to the quota, if there are as many groups as pairs; and
      exactly those, however many there are, if no two shared one before, in groups of two. */
  ghost predicate SharesQuota(m0: Mu, m: Mu, nx: nat, u: nat) {
    var list := m0.activeSta;
    var q := Quota(nx, |list|);
    && (|list| * (|list| - 1) <= 2 * nx ==> FirstShare(m, list, q))
    && (u == 2 && AllApart(m0, list) && q <= nx ==>
          forall j :: 0 <= j < Pairs(|list|) ==>
            (Share(m, PairList(list)[j].0, PairList(list)[j].1) <==> j < q))
  }

  /** Stations that were all apart, in groups of two, all share one after the run if and only
      if their pairs fit in half of the groups. */
  ghost predicate ShareIffFew(m0: Mu, m: Mu, nx: nat, u: nat) {
    var k := |m0.activeSta|;
    && (k * (k - 1) <= nx ==> AllTogether(m, m0.activeSta))
    && (u == 2 && nx % 2 == 0 && AllApart(m0, m0.activeSta) && AllTogether(m, m0.activeSta) ==> k * (k - 1) <= nx)
  }

  lemma WorkExactly(m0: Mu, m: Mu, nx: nat, u: nat, t: nat, pairs: seq<(nat, nat)>, made: seq<set<nat>>)
    requires Consistent(m, nx, u) && NoDup(m0.activeSta) && FormedBut(m0, m, nx, u, t, pairs, made)
    ensures SharesQuota(m0, m, nx, u) && ShareIffFew(m0, m, nx, u)
  {
    var list := m0.activeSta;
    WorkShares(m, nx, u, t, pairs, list, |made|);
    if u == 2 && AllApart(m0, list) && Quota(nx, |list|) <= nx {
      ListSize(m, nx, u);
      if list == [] { assert PairList(list) == []; } else { QuotaExact(nx, list, pairs, t, |made|); }
      forall j | 0 <= j < Pairs(|list|)
        ensures Share(m, PairList(list)[j].0, PairList(list)[j].1) <==> j < Quota(nx, |list|)
      {
        MadeExactly(m, list, t, pairs, made, j);
      }
    }
    FewShare(m0, m, nx, u);
  }

  lemma QuotaExact(nx: nat, list: seq<nat>, pairs: seq<(nat, nat)>, t: nat, n: nat)
    requires Ended(nx, list, pairs, t, n) && n == t == |pairs|
    ensures |pairs| == Quota(nx, |list|)
  {
    QuotaReached(nx, Pairs(|list|), |pairs|, t, n, Quota(nx, |list|));
  }

  lemma MadeExactly(m: Mu, list: seq<nat>, t: nat, pairs: seq<(nat, nat)>, made: seq<set<nat>>, j: nat)
    requires NoDup(list) && AllPaired(m, t, pairs) && t <= |m.activeGroups| && pairs <= PairList(list)
    requires OnlyMade(m, list, made) && Noted(list, pairs, made, t) && j < |PairList(list)|
    ensures Share(m, PairList(list)[j].0, PairList(list)[j].1) <==> j < |pairs|
  {
    var a, b := PairListAt(list, j);
    if j < |pairs| {
      PairShares(m, t, pairs, j);
    } else if Share(m, list[a], list[b]) {
      var k :| 0 <= k < |made| && made[k] == {list[a], list[b]};
      assert pairs[k] == PairList(list)[k];
      PairListOnce(list, k, j);
    }
  }

  /** All share exactly if the quota is all pairs. */
  lemma FewShare(m0: Mu, m: Mu, nx: nat, u: nat)
    requires SharesQuota(m0, m, nx, u)
    ensures ShareIffFew(m0, m, nx, u)
  {
    var list := m0.activeSta;
    if |list| * (|list| - 1) <= nx {
      AllShare(m, list);
    } else if u == 2 && nx % 2 == 0 && AllApart(m0, list) && AllTogether(m, list) {
      var q := Quota(nx, |list|);
      var a, b := PairListAt(list, q);
    }
  }

  /** After a run: the groups last used are those of `pairs`, groups were created for the
      stations of `made`, the active list and the update list are empty, and the traffic is
      what it was. */
  ghost predicate Formed(m0: Mu, m: Mu, nx: nat, u: nat, t: nat, pairs: seq<(nat, nat)>, made: seq<set<nat>>) {
    FormedBut(m0, m, nx, u, t, pairs, made) && SameTraffic(m0.stas, m.stas)
  }

  ghost predicate FormedBut(m0: Mu, m: Mu, nx: nat, u: nat, t: nat, pairs: seq<(nat, nat)>, made: seq<set<nat>>) {
    && m.activeSta == [] && m.updateSta == []
    && m.updateCount == NextRun(m0.updateCount) && m.stas.Keys == m0.stas.Keys
    && (forall s :: s in m0.activeSta ==> s in m.stas && m.stas[s].lastUpdate == m.updateCount)
    && AllPaired(m, t, pairs) && Ended(nx, m0.activeSta, pairs, t, |made|)
    && (u == 2 && AllApart(m0, m0.activeSta) ==>
          OnlyMade(m, m0.activeSta, made) && Noted(m0.activeSta, pairs, made, t))
  }

  /** The groups chosen afterwards leave that as it is, but for the traffic, which is counted anew. */
  lemma FormedSelected(m0: Mu, m: Mu, m': Mu, nx: nat, u: nat, t: nat, pairs: seq<(nat, nat)>, made: seq<set<nat>>,
                       list: seq<nat>)
    requires Formed(m0, m, nx, u, t, pairs, made) && m' == m.(stas := m'.stas) && SelectOnly(m.stas, m'.stas, list)
    ensures FormedBut(m0, m', nx, u, t, pairs, made)
    ensures forall s :: s in m'.stas ==> m'.stas[s].traffic == if s in list then 0 else m0.stas[s].traffic
  {
    PairedSame(m, m', t, pairs);
    if u == 2 && AllApart(m0, m0.activeSta) { MadeSame(m, m', m0.activeSta, made); }
  }

  lemma ListSize(m: Mu, nx: nat, u: nat)
    requires Consistent(m, nx, u)
    ensures |m.activeGroups| == nx
  {
    AllThere(m.activeGroups, nx);
  }

  lemma {:induction false} AllThere(s: seq<nat>, n: nat)
    requires NoDup(s) && forall x :: x in s <==> 1 <= x <= n
    ensures |s| == n
    decreases n
  {
    DistinctFits(s, n);
    if n > 0 {
      WithoutNoDup(s, n);
      AllThere(Without(s, n), n - 1);
    }
  }
}
