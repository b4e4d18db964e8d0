/** Permutations of dimension numbers (xla/permutation_util.cc). */
module Permutations {

  ghost predicate Distinct(p: seq<int>) {
    forall j, k :: 0 <= j < k < |p| ==> p[j] != p[k]
  }

  ghost predicate Indexes(p: seq<int>, n: nat) {
    forall k :: 0 <= k < |p| ==> 0 <= p[k] < n
  }

  ghost predicate IsPerm(p: seq<int>) {
    Indexes(p, |p|) && Distinct(p)
  }

  /** The sequence whose entry `k` is `s[p[k]]`. */
  function Gather<T>(s: seq<T>, p: seq<int>): (r: seq<T>)
    requires forall k :: 0 <= k < |p| ==> 0 <= p[k] < |s|
    ensures |r| == |p|
    ensures forall k :: 0 <= k < |p| ==> r[k] == s[p[k]]
  {
    seq(|p|, k requires 0 <= k < |p| => s[p[k]])
  }

  lemma {:induction false} Pigeonhole(p: seq<int>, t: set<int>)
    requires Distinct(p) && forall k :: 0 <= k < |p| ==> p[k] in t
    ensures |p| <= |t|
  {
    if p != [] {
      assert forall k :: 0 <= k < |p[1..]| ==> p[1..][k] == p[k + 1];
      Pigeonhole(p[1..], t - {p[0]});
    }
  }

  function Below(n: nat): (s: set<int>)
    ensures forall x :: x in s <==> 0 <= x < n
    ensures |s| == n
  {
    if n == 0 then {} else Below(n - 1) + {n - 1}
  }

  /** A permutation reaches every dimension: injective on a finite range is onto. */
  lemma Onto(p: seq<int>, d: int)
    requires IsPerm(p) && 0 <= d < |p|
    ensures d in p
  {
    if d !in p { Pigeonhole(p, Below(|p|) - {d}); }
  }

  ghost function PositionOf(p: seq<int>, d: int): (k: int)
    requires IsPerm(p) && 0 <= d < |p|
    ensures 0 <= k < |p| && p[k] == d
  {
    Onto(p, d);
    var k :| 0 <= k < |p| && p[k] == d;
    k
  }

  ghost predicate Inverses(p: seq<int>, q: seq<int>) {
    && |p| == |q| && Indexes(p, |p|) && Indexes(q, |q|)
    && forall k :: 0 <= k < |p| ==> q[p[k]] == k && p[q[k]] == k
  }

  lemma InverseIsPermutation(p: seq<int>, q: seq<int>)
    requires Inverses(p, q)
    ensures IsPerm(p) && IsPerm(q)
  {
    forall j, k | 0 <= j < k < |p| ensures p[j] != p[k] && q[j] != q[k] {
      assert q[p[j]] == j && q[p[k]] == k && p[q[j]] == j && p[q[k]] == k;
    }
  }

  lemma GatherComposes<T>(s: seq<T>, p: seq<int>, q: seq<int>)
    requires Indexes(p, |s|) && Indexes(q, |p|)
    ensures Indexes(Gather(p, q), |s|)
    ensures Gather(Gather(s, p), q) == Gather(s, Gather(p, q))
  {}

  // ---- the source's operations ----

  method IsPermutation(p: seq<int>) returns (ok: bool)
    ensures ok <==> IsPerm(p)
  {
    var seen := new bool[|p|](_ => false);
    for i := 0 to |p|
      invariant Indexes(p[..i], |p|) && Distinct(p[..i])
      invariant forall d :: 0 <= d < |p| ==> (seen[d] <==> d in p[..i])
    {
      if p[i] < 0 || p[i] >= |p| || seen[p[i]] {
        if 0 <= p[i] < |p| {
          var j :| 0 <= j < i && p[..i][j] == p[i];
          assert p[j] == p[i];
        }
        return false;
      }
      seen[p[i]] := true;
      assert p[..i + 1] == p[..i] + [p[i]];
    }
    assert p[..|p|] == p;
    return true;
  }

  method InversePermutation(p: seq<int>) returns (q: seq<int>)
    requires IsPerm(p)
    ensures Inverses(p, q) && IsPerm(q)
  {
    var out := new int[|p|](_ => -1);
    for i := 0 to |p|
      invariant forall k :: 0 <= k < i ==> out[p[k]] == k
    {
      out[p[i]] := i;
    }
    q := out[..];
    forall d | 0 <= d < |p| ensures 0 <= q[d] < |p| && p[q[d]] == d {
      var k := PositionOf(p, d);
      assert q[p[k]] == k;
    }
    InverseIsPermutation(p, q);
  }

  /** Applying the composition is applying `p1` first and then `p2`. */
  method ComposePermutations(p1: seq<int>, p2: seq<int>) returns (out: seq<int>)
    requires |p1| == |p2| && Indexes(p2, |p1|)
    ensures out == Gather(p1, p2)
    ensures IsPerm(p1) && IsPerm(p2) ==> IsPerm(out)
  {
    out := [];
    for i := 0 to |p1|
      invariant |out| == i && forall k :: 0 <= k < i ==> out[k] == p1[p2[k]]
    {
      out := out + [p1[p2[i]]];
    }
  }
}
