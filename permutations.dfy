/**
 * `random.shuffle` is modelled by the permutation it happens to choose: `p` lists, for each
 * new position, the old position of the element that lands there.
 */
module Permutations {

  /** `p` is a permutation of `0 .. n-1`. */
  predicate IsPermutation(p: seq<nat>, n: nat) {
    && |p| == n
    && (forall i :: 0 <= i < n ==> p[i] < n)
    && (forall i, j :: 0 <= i < j < n ==> p[i] != p[j])
    && (forall v :: 0 <= v < n ==> v in p)
  }

  /** The list `s` after a shuffle that chose `p`: position `i` receives `s[p[i]]`. */
  function Permute<T>(s: seq<T>, p: seq<nat>): (r: seq<T>)
    requires IsPermutation(p, |s|)
    ensures |r| == |s|
  {
    seq(|s|, i requires 0 <= i < |s| => s[p[i]])
  }

  /** Every old position is the source of exactly one new position. */
  lemma PermuteSource<T>(s: seq<T>, p: seq<nat>, j: nat)
    requires IsPermutation(p, |s|) && j < |s|
    ensures exists k :: 0 <= k < |s| && p[k] == j && Permute(s, p)[k] == s[j]
    ensures forall k, k' :: 0 <= k < k' < |s| && p[k] == j ==> p[k'] != j
  {
    assert j in p;
  }

  /** Removing the entry at `k` that holds `n - 1` leaves a permutation of `0 .. n-2`. */
  lemma DropLast(p: seq<nat>, n: nat, k: nat)
    requires n > 0 && IsPermutation(p, n) && k < n && p[k] == n - 1
    ensures IsPermutation(p[..k] + p[k + 1..], n - 1)
  {
    var q := p[..k] + p[k + 1..];
    assert |q| == n - 1;
    assert forall i :: 0 <= i < n - 1 ==> q[i] == if i < k then p[i] else p[i + 1];
    forall v | 0 <= v < n - 1 ensures v in q {
      assert v in p;
      var m :| 0 <= m < n && p[m] == v;
      assert m != k;
      if m < k {
        assert q[m] == v;
      } else {
        assert q[m - 1] == v;
      }
    }
  }

  /** Shuffling `s` by `p` is shuffling all but its last element by `p` without the entry `k`, then inserting the last element at `k`. */
  lemma PermuteInsertLast<T>(s: seq<T>, p: seq<nat>, k: nat)
    requires |s| > 0 && IsPermutation(p, |s|) && k < |s| && p[k] == |s| - 1
    ensures IsPermutation(p[..k] + p[k + 1..], |s| - 1)
    ensures var u := Permute(s[..|s| - 1], p[..k] + p[k + 1..]);
      Permute(s, p) == u[..k] + [s[|s| - 1]] + u[k..]
  {
    var n := |s|;
    var q := p[..k] + p[k + 1..];
    DropLast(p, n, k);
    var u := Permute(s[..n - 1], q);
    var t := Permute(s, p);
    var w := u[..k] + [s[n - 1]] + u[k..];
    assert |w| == n;
    forall i | 0 <= i < n ensures t[i] == w[i] {
      if i < k {
        assert q[i] == p[i];
      } else if i > k {
        assert q[i - 1] == p[i];
      }
    }
  }

  /** Inserting `x` anywhere adds one `x` to the multiset. */
  lemma InsertMultiset<T>(u: seq<T>, k: nat, x: T)
    requires k <= |u|
    ensures multiset(u[..k] + [x] + u[k..]) == multiset(u) + multiset{x}
  {
    assert u == u[..k] + u[k..];
  }

  /** A shuffle keeps the multiset of elements: nothing is lost or duplicated. */
  lemma {:induction false} PermuteMultiset<T>(s: seq<T>, p: seq<nat>)
    requires IsPermutation(p, |s|)
    ensures multiset(Permute(s, p)) == multiset(s)
    decreases |s|
  {
    if |s| > 0 {
      var n := |s|;
      assert n - 1 in p;
      var k :| 0 <= k < n && p[k] == n - 1;
      var q := p[..k] + p[k + 1..];
      var init := s[..n - 1];
      PermuteInsertLast(s, p, k);
      PermuteMultiset(init, q);
      InsertMultiset(Permute(init, q), k, s[n - 1]);
      assert s == init + [s[n - 1]];
    }
  }
}
