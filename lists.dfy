/** Sequence helpers that the list edits of the source reduce to. */
module Lists {
  /** The sequence read back to front. */
  function Reverse<T>(s: seq<T>): (r: seq<T>)
    ensures |r| == |s|
  {
    if |s| == 0 then [] else [s[|s| - 1]] + Reverse(s[..|s| - 1])
  }

  lemma {:induction false} ReverseIndex<T>(s: seq<T>)
    ensures forall i :: 0 <= i < |s| ==> Reverse(s)[i] == s[|s| - 1 - i]
  {
    if |s| > 0 {
      ReverseIndex(s[..|s| - 1]);
    }
  }

  /** Reversing a concatenation reverses the order of the two parts. */
  lemma ReverseAppend<T>(a: seq<T>, b: seq<T>)
    ensures Reverse(a + b) == Reverse(b) + Reverse(a)
  {
    ReverseIndex(a + b);
    ReverseIndex(a);
    ReverseIndex(b);
  }

  /** Reversing twice gives the sequence back. */
  lemma ReverseReverse<T>(s: seq<T>)
    ensures Reverse(Reverse(s)) == s
  {
    ReverseIndex(s);
    ReverseIndex(Reverse(s));
  }

  /** Reversing keeps the elements. */
  lemma ReverseMembers<T>(s: seq<T>)
    ensures forall x :: x in Reverse(s) <==> x in s
  {
    ReverseIndex(s);
    forall x | x in s
      ensures x in Reverse(s)
    {
      var i :| 0 <= i < |s| && s[i] == x;
      assert Reverse(s)[|s| - 1 - i] == x;
    }
  }

  /** The indices 0 .. n-1 in order (`range(n)`). */
  function Range(n: nat): (r: seq<int>)
    ensures |r| == n && forall i :: 0 <= i < n ==> r[i] == i
  {
    seq(n, i => i)
  }

  /** `perm` lists every index 0 .. n-1 exactly once: the order a shuffle
      (`DataFrame.sample(frac=1)`) draws the rows in. */
  predicate IsPermutation(perm: seq<int>, n: nat)
  {
    && |perm| == n
    && (forall i :: 0 <= i < n ==> 0 <= perm[i] < n)
    && multiset(perm) == multiset(Range(n))
  }

  /** The rows of `s` in the order `perm` draws them. */
  function Permute<T>(s: seq<T>, perm: seq<int>): (r: seq<T>)
    requires IsPermutation(perm, |s|)
    ensures |r| == |s| && forall i :: 0 <= i < |s| ==> r[i] == s[perm[i]]
  {
    seq(|s|, i requires 0 <= i < |s| => s[perm[i]])
  }

  /** Drawing in a permuted order keeps every row, as often as it was there. */
  lemma {:induction false} PermuteKeepsRows<T>(s: seq<T>, perm: seq<int>)
    requires IsPermutation(perm, |s|)
    ensures multiset(Permute(s, perm)) == multiset(s)
    decreases |s|
  {
    var n := |s|;
    if n > 0 {
      var k, rest := DropLargest(perm, n);
      var t, last := s[..n - 1], s[n - 1];
      var q := Permute(t, rest);
      calc {
        multiset(Permute(s, perm));
      == { PermuteDropLast(s, perm, k, rest); }
        multiset(q[..k] + [last] + q[k..]);
      == { InsertAt(q, k, [last]); }
        multiset(q) + multiset([last]);
      == { PermuteKeepsRows(t, rest); }
        multiset(t) + multiset([last]);
      == { assert s == t + [last]; }
        multiset(s);
      }
    }
  }

  /** Removing the largest index from a permutation of 0 .. n-1 leaves a
      permutation of 0 .. n-2. */
  lemma DropLargest(perm: seq<int>, n: nat) returns (k: nat, rest: seq<int>)
    requires IsPermutation(perm, n) && n > 0
    ensures k < n && perm[k] == n - 1
    ensures rest == perm[..k] + perm[k + 1..] && IsPermutation(rest, n - 1)
  {
    k := LargestAt(perm, n);
    rest := perm[..k] + perm[k + 1..];
    RemoveLargest(perm, n, k, rest);
    RangePermutation(rest, n - 1);
  }

  /** Without its n - 1, a permutation of 0 .. n-1 holds the elements of
      0 .. n-2. */
  lemma RemoveLargest(perm: seq<int>, n: nat, k: nat, rest: seq<int>)
    requires n > 0 && multiset(perm) == multiset(Range(n))
    requires k < |perm| && perm[k] == n - 1 && rest == perm[..k] + perm[k + 1..]
    ensures multiset(rest) == multiset(Range(n - 1))
  {
    RemoveAt(perm, k, n - 1);
    DropElements(multiset(perm), n, multiset(rest));
  }

  /** n elements with the elements of `range(n)` are a permutation of it. */
  lemma RangePermutation(r: seq<int>, n: nat)
    requires |r| == n && multiset(r) == multiset(Range(n))
    ensures IsPermutation(r, n)
  {
    RangeBounds(r, n);
  }

  /** Without one n-1, the elements of 0 .. n-1 are those of 0 .. n-2. */
  lemma DropElements(all: multiset<int>, n: nat, rest: multiset<int>)
    requires n > 0 && all == multiset(Range(n)) && rest == all - multiset{n - 1}
    ensures rest == multiset(Range(n - 1))
  {
    var smaller := multiset(Range(n - 1));
    calc {
      rest;
    ==
      all - multiset{n - 1};
    ==
      multiset(Range(n)) - multiset{n - 1};
    == { RangeLast(n); }
      smaller + multiset{n - 1} - multiset{n - 1};
    == { AddRemove(smaller, n - 1); }
      smaller;
    }
  }

  lemma AddRemove<T>(m: multiset<T>, x: T)
    ensures m + multiset{x} - multiset{x} == m
  {
  }

  /** A permutation of 0 .. n-1 draws n-1 somewhere. */
  lemma LargestAt(perm: seq<int>, n: nat) returns (k: nat)
    requires IsPermutation(perm, n) && n > 0
    ensures k < n && perm[k] == n - 1
  {
    assert Range(n)[n - 1] == n - 1;
    assert n - 1 in multiset(Range(n));
    assert n - 1 in perm;
    k :| 0 <= k < n && perm[k] == n - 1;
  }

  /** `range(n)` is `range(n - 1)` followed by n - 1. */
  lemma RangeLast(n: nat)
    requires n > 0
    ensures multiset(Range(n)) == multiset(Range(n - 1)) + multiset{n - 1}
  {
    assert Range(n) == Range(n - 1) + [n - 1];
  }

  /** Inserting a run at k adds its elements. */
  lemma InsertAt<T>(q: seq<T>, k: nat, run: seq<T>)
    requires k <= |q|
    ensures multiset(q[..k] + run + q[k..]) == multiset(q) + multiset(run)
  {
    assert q == q[..k] + q[k..];
  }

  /** Removing the element at k removes one occurrence of it. */
  lemma RemoveAt<T>(s: seq<T>, k: nat, x: T)
    requires k < |s| && s[k] == x
    ensures multiset(s[..k] + s[k + 1..]) == multiset(s) - multiset{x}
  {
    assert s == s[..k] + [s[k]] + s[k + 1..];
  }

  /** A sequence with the elements of `range(n)` holds only 0 .. n-1. */
  lemma RangeBounds(r: seq<int>, n: nat)
    requires multiset(r) == multiset(Range(n))
    ensures forall i :: 0 <= i < |r| ==> 0 <= r[i] < n
  {
    forall i | 0 <= i < |r|
      ensures 0 <= r[i] < n
    {
      assert r[i] in multiset(r);
      assert r[i] in Range(n);
    }
  }

  /** Drawing order `perm` is drawing order `rest` on all rows but the last,
      with the last row slotted in where `perm` draws it. */
  lemma PermuteDropLast<T>(s: seq<T>, perm: seq<int>, k: nat, rest: seq<int>)
    requires IsPermutation(perm, |s|) && 0 <= k < |s| && perm[k] == |s| - 1
    requires rest == perm[..k] + perm[k + 1..] && IsPermutation(rest, |s| - 1)
    ensures var q := Permute(s[..|s| - 1], rest);
            Permute(s, perm) == q[..k] + [s[|s| - 1]] + q[k..]
  {
  }
}
