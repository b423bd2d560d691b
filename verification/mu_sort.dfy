/** Ordering the groups by traffic: a bubble sort that goes over the table until nothing
    moves. */
module MuSort {

  /** How many numbers of `s` exceed `x`. */
  function Above(x: int, s: seq<int>): nat {
    if s == [] then 0 else (if x < s[0] then 1 else 0) + Above(x, s[1..])
  }

  /** Pairs that are in the wrong order. */
  function Inversions(s: seq<int>): nat {
    if s == [] then 0 else Above(s[0], s[1..]) + Inversions(s[1..])
  }

  function Swapped<T>(s: seq<T>, i: nat): seq<T>
    requires i + 1 < |s|
  {
    s[i := s[i + 1]][i + 1 := s[i]]
  }

  lemma {:induction false} AboveSwapped(x: int, s: seq<int>, i: nat)
    requires i + 1 < |s|
    ensures Above(x, Swapped(s, i)) == Above(x, s)
  {
    var t := Swapped(s, i);
    if i > 0 {
      assert t[1..] == Swapped(s[1..], i - 1);
      AboveSwapped(x, s[1..], i - 1);
    } else {
      assert t[1..][1..] == s[1..][1..];
    }
  }

  /** Swapping a pair of neighbours in the wrong order removes exactly that inversion. */
  lemma {:induction false} SwapRemovesOne(s: seq<int>, i: nat)
    requires i + 1 < |s| && s[i] < s[i + 1]
    ensures Inversions(Swapped(s, i)) == Inversions(s) - 1
  {
    var t := Swapped(s, i);
    if i > 0 {
      assert t[1..] == Swapped(s[1..], i - 1);
      AboveSwapped(s[0], s[1..], i - 1);
      SwapRemovesOne(s[1..], i - 1);
    } else {
      assert t[1..][1..] == s[1..][1..];
    }
  }

  ghost predicate Descending(s: seq<int>) {
    forall i, j :: 0 <= i < j < |s| ==> s[i] >= s[j]
  }

  lemma {:induction false} NeighboursSuffice(s: seq<int>)
    requires forall i :: 0 <= i < |s| - 1 ==> s[i] >= s[i + 1]
    ensures Descending(s)
  {
    if s != [] {
      var front := s[..|s| - 1];
      assert forall i :: 0 <= i < |front| ==> front[i] == s[i];
      NeighboursSuffice(front);
      forall i, j | 0 <= i < j < |s|
        ensures s[i] >= s[j]
      {
        if j == |s| - 1 {
          assert s[j - 1] >= s[j];
          assert i < j - 1 ==> front[i] >= front[j - 1];
        } else {
          assert front[i] >= front[j];
        }
      }
    }
  }

  lemma SwapPermutes(s: seq<nat>, i: nat)
    requires i + 1 < |s|
    ensures multiset(Swapped(s, i)) == multiset(s)
  {
    var t := Swapped(s, i);
    assert s == s[..i] + [s[i], s[i + 1]] + s[i + 2..];
    assert t == s[..i] + [s[i + 1], s[i]] + s[i + 2..];
  }

  /** The traffic of the groups listed. */
  ghost function Weights(traffic: seq<int>, order: seq<nat>): (w: seq<int>)
    requires forall i :: 0 <= i < |order| ==> order[i] < |traffic|
    ensures |w| == |order| && forall i :: 0 <= i < |order| ==> w[i] == traffic[order[i]]
  {
    seq(|order|, i requires 0 <= i < |order| => traffic[order[i]])
  }

  ghost predicate Listed(order: seq<nat>, n: nat) {
    forall i :: 0 <= i < |order| ==> order[i] < n
  }

  /** Swaps neighbours that are in the wrong order. */
  method Exchange(order: array<nat>, cnt: nat, ghost t: seq<int>, i: nat)
    requires i + 1 < cnt <= order.Length && Listed(order[..cnt], |t|) && t[order[i]] < t[order[i + 1]]
    modifies order
    ensures Listed(order[..cnt], |t|) && multiset(order[..cnt]) == multiset(old(order[..cnt]))
    ensures Inversions(Weights(t, order[..cnt])) == Inversions(Weights(t, old(order[..cnt]))) - 1
  {
    ghost var o := order[..cnt];
    var tmp := order[i];
    order[i] := order[i + 1];
    order[i + 1] := tmp;
    assert order[..cnt] == Swapped(o, i);
    SwapPermutes(o, i);
    SwapRemovesOne(Weights(t, o), i);
    assert Weights(t, order[..cnt]) == Swapped(Weights(t, o), i);
  }

  /** The first `cnt` entries are put in order of falling traffic; none is lost or added. */
  method SortByTraffic(order: array<nat>, cnt: nat, traffic: array<int>)
    requires cnt <= order.Length && Listed(order[..cnt], traffic.Length)
    modifies order
    ensures multiset(order[..cnt]) == multiset(old(order[..cnt])) && Listed(order[..cnt], traffic.Length)
    ensures Descending(Weights(traffic[..], order[..cnt]))
  {
    ghost var t := traffic[..];
    var update := true;
    while update
      invariant Listed(order[..cnt], |t|) && multiset(order[..cnt]) == multiset(old(order[..cnt]))
      invariant !update ==> Descending(Weights(t, order[..cnt]))
      decreases update, Inversions(Weights(t, order[..cnt]))
    {
      update := Pass(order, cnt, traffic);
    }
  }

  /** One pass over the table. */
  method Pass(order: array<nat>, cnt: nat, traffic: array<int>) returns (update: bool)
    requires cnt <= order.Length && Listed(order[..cnt], traffic.Length)
    modifies order
    ensures Listed(order[..cnt], traffic.Length) && multiset(order[..cnt]) == multiset(old(order[..cnt]))
    ensures update ==>
      Inversions(Weights(traffic[..], order[..cnt])) < Inversions(Weights(traffic[..], old(order[..cnt])))
    ensures !update ==> Descending(Weights(traffic[..], order[..cnt]))
  {
    ghost var t, was := traffic[..], order[..cnt];
    ghost var w := Weights(t, was);
    update := false;
    var i := 0;
    while i + 1 < cnt
      invariant 0 <= i && (cnt > 0 ==> i < cnt)
      invariant Listed(order[..cnt], |t|) && multiset(order[..cnt]) == multiset(was)
      invariant update ==> Inversions(Weights(t, order[..cnt])) < Inversions(Weights(t, was))
      invariant !update ==> order[..cnt] == was && forall k :: 0 <= k < i && k + 1 < cnt ==> w[k] >= w[k + 1]
    {
      if traffic[order[i]] < traffic[order[i + 1]] {
        Exchange(order, cnt, t, i);
        update := true;
      }
      i := i + 1;
    }
    if !update { NeighboursSuffice(w); }
  }
}
