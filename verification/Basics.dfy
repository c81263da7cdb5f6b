/** What several modules share. */
module Basics {

  datatype Option<T> = None | Some(value: T)

  /** The first n numbers. */
  ghost function Below(n: nat): (s: set<nat>)
    ensures |s| == n && forall x: nat :: x in s <==> x < n
  {
    if n == 0 then {} else Below(n - 1) + {n - 1}
  }

  lemma Subset(s: set<nat>, t: set<nat>)
    requires s <= t
    ensures |s| <= |t|
  {
    assert |t - s| == |t| - |s|;
  }

  /** A set of numbers below n has at most n of them. */
  lemma AtMost(s: set<nat>, n: nat)
    requires forall x | x in s :: x < n
    ensures |s| <= n
  {
    Subset(s, Below(n));
  }

  /** A set of n numbers below n has them all. */
  lemma AllIn(s: set<nat>, n: nat, x: nat)
    requires |s| == n && x < n && forall y | y in s :: y < n
    ensures x in s
  {
    if x !in s {
      AtMost(s + {x}, n);
    }
  }

  /** A set of fewer leaves one out. */
  lemma LeftOut(s: set<nat>, n: nat) returns (x: nat)
    requires |s| < n
    ensures x < n && x !in s
  {
    if Below(n) <= s {
      Subset(Below(n), s);
    }
    x :| x in Below(n) && x !in s;
  }

  /** Nothing stands in two places. */
  ghost predicate Distinct<T>(q: seq<T>) {
    forall i, j | 0 <= i < j < |q| :: q[i] != q[j]
  }

  lemma DistinctNone()
    ensures Distinct<nat>([])
  {
  }

  lemma DistinctPush(q: seq<nat>, x: nat)
    requires Distinct(q) && x !in q
    ensures Distinct(q + [x])
  {
  }

  lemma DistinctFront(x: nat, q: seq<nat>)
    requires Distinct(q) && x !in q
    ensures Distinct([x] + q)
  {
    forall i, j | 0 <= i < j < |[x] + q| ensures ([x] + q)[i] != ([x] + q)[j] {
      assert ([x] + q)[j] == q[j - 1];
    }
  }

  lemma DistinctTail(q: seq<nat>)
    requires Distinct(q) && q != []
    ensures Distinct(q[1..]) && q[0] in q && q[0] !in q[1..] && forall x | x in q[1..] :: x in q
  {
    assert forall i | 0 <= i < |q[1..]| :: q[1..][i] == q[i + 1];
  }

  lemma {:induction false} DistinctSize(q: seq<nat>, s: set<nat>)
    requires Distinct(q) && s == set x | x in q
    ensures |s| == |q|
    decreases |q|
  {
    if q != [] {
      var last, rest := q[|q| - 1], q[..|q| - 1];
      assert q == rest + [last];
      DistinctSize(rest, s - {last});
    }
  }

  /** As many distinct numbers below n as there are leave none out. */
  lemma AllThere(q: seq<nat>, n: nat, x: nat)
    requires Distinct(q) && |q| == n && x < n && forall i | 0 <= i < |q| :: q[i] < n
    ensures x in q
  {
    if x !in q {
      RoomLeft(q, x, n);
    }
  }

  /** A sequence of distinct numbers below n that leaves one out is shorter than n. */
  lemma RoomLeft(q: seq<nat>, x: nat, n: nat)
    requires Distinct(q) && x < n && x !in q && forall i | 0 <= i < |q| :: q[i] < n
    ensures |q| < n
  {
    var seen := set y | y in q;
    DistinctSize(q, seen);
    assert seen <= Below(n) - {x};
    assert |(Below(n) - {x}) - seen| == n - 1 - |seen|;
  }
}
