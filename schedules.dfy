/** Schedules: orders of the jobs of one instance, kept as sequences (or arrays)
    of indices into the job table, so that the identity of a job is its index. */
module Schedules {

  /** `s` with the neighbours at positions `i` and `i + 1` exchanged; the only
      move of the search. */
  function Swapped<T>(s: seq<T>, i: nat): (r: seq<T>)
    requires i + 1 < |s|
    ensures |r| == |s|
    ensures r[i] == s[i + 1] && r[i + 1] == s[i]
    ensures forall k :: 0 <= k < |s| && k != i && k != i + 1 ==> r[k] == s[k]
  {
    s[i := s[i + 1]][i + 1 := s[i]]
  }

  /** An adjacent swap rearranges the schedule and loses or adds nothing. */
  lemma {:induction false} SwappedPermutes<T>(s: seq<T>, i: nat)
    requires i + 1 < |s|
    ensures multiset(Swapped(s, i)) == multiset(s)
  {
    var r := Swapped(s, i);
    assert s == s[..i] + [s[i], s[i + 1]] + s[i + 2..];
    assert r == s[..i] + [s[i + 1], s[i]] + s[i + 2..];
  }

  /** Swapping the same neighbours twice restores the schedule. */
  lemma {:induction false} SwappedTwice<T>(s: seq<T>, i: nat)
    requires i + 1 < |s|
    ensures Swapped(Swapped(s, i), i) == s
  {
  }

  /** In-place adjacent swap of `a[i]` and `a[i + 1]`. */
  method Swap<T>(a: array<T>, i: nat)
    requires i + 1 < a.Length
    modifies a
    ensures a[..] == Swapped(old(a[..]), i)
  {
    var temp := a[i];
    a[i] := a[i + 1];
    a[i + 1] := temp;
  }

  /** The order in which the instance lists its jobs. */
  function Identity(n: nat): (r: seq<nat>)
    ensures |r| == n && forall k :: 0 <= k < n ==> r[k] == k
  {
    seq(n, k => k)
  }

  /** `s` lists every job index `0 .. n - 1` exactly once. */
  predicate IsPermutation(s: seq<nat>, n: nat)
  {
    && |s| == n
    && (forall k :: 0 <= k < |s| ==> s[k] < n)
    && (forall k, l :: 0 <= k < l < |s| ==> s[k] != s[l])
  }

  /** The identity order is a permutation. */
  lemma {:induction false} IdentityIsPermutation(n: nat)
    ensures IsPermutation(Identity(n), n)
  {
  }

  /** An adjacent swap keeps a schedule a permutation of the job indices. */
  lemma {:induction false} SwappedIsPermutation(s: seq<nat>, n: nat, i: nat)
    requires IsPermutation(s, n) && i + 1 < |s|
    ensures IsPermutation(Swapped(s, i), n)
  {
    var r := Swapped(s, i);
    forall k, l | 0 <= k < l < |r|
      ensures r[k] != r[l]
    {
      var k' := if k == i then i + 1 else if k == i + 1 then i else k;
      var l' := if l == i then i + 1 else if l == i + 1 then i else l;
      assert r[k] == s[k'] && r[l] == s[l'] && k' != l';
      if k' > l' {
        assert s[l'] != s[k'];
      }
    }
  }
}
