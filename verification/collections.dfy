/** Facts about sets and sequences. */
module Collections {

  /** The numbers below `n`. */
  function Below(n: nat): (r: set<nat>)
    ensures |r| == n && forall j: nat :: j in r <==> j < n
  {
    if n == 0 then {} else Below(n - 1) + {n - 1}
  }

  /** A subset is no larger. */
  lemma {:induction false} SubsetSize(a: set<nat>, b: set<nat>)
    requires a <= b
    ensures |a| <= |b|
    decreases a
  {
    if a != {} {
      var x :| x in a;
      SubsetSize(a - {x}, b - {x});
    }
  }

  /** A subset as large as the set is the set. */
  lemma {:induction false} SubsetFull(a: set<nat>, b: set<nat>)
    requires a <= b && |b| <= |a|
    ensures a == b
  {
    assert b == a + (b - a);
    if x :| x in b - a {
      SubsetSize(a, b - {x});
    }
  }

  lemma DisjointSize<T>(a: set<T>, b: set<T>)
    requires a !! b
    ensures |a + b| == |a| + |b|
  {
  }

  /** Concatenation is associative. */
  lemma Regroup<T>(a: seq<T>, b: seq<T>, c: seq<T>)
    ensures a + b + c == a + (b + c)
  {
  }

  /** A sequence is its slices in order. */
  lemma Cut<T>(b: seq<T>, k: nat, n: nat)
    requires k <= n <= |b|
    ensures b == b[..k] + b[k..n] + b[n..]
  {
  }

  /** A slice of a prefix is a slice. */
  lemma SubSlice<T>(b: seq<T>, n: nat, i: nat, j: nat)
    requires i <= j <= n <= |b|
    ensures b[..n][i..j] == b[i..j]
  {
  }

  /** More numbers than there are below `n` are not all different. */
  lemma {:induction false} Pigeonhole(s: seq<nat>, n: nat) returns (i: nat, j: nat)
    requires |s| > n && forall k :: 0 <= k < |s| ==> s[k] < n
    ensures i < j < |s| && s[i] == s[j]
  {
    var k := 0;
    var seen: set<nat> := {};
    while forall l :: 0 <= l < k ==> s[l] != s[k]
      invariant k <= n && |seen| == k && seen <= Below(n)
      invariant forall x :: x in seen <==> exists l :: 0 <= l < k && s[l] == x
      decreases n - k
    {
      seen := seen + {s[k]};
      k := k + 1;
      SubsetSize(seen, Below(n));
    }
    i :| 0 <= i < k && s[i] == s[k];
    j := k;
  }
}
