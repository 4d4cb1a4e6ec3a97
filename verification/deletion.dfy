/**
 * Deleting a list of indices from a Python list with
 * `for idx in indices[::-1]: del xs[idx]`, and the declarative
 * "keep every element whose index is not flagged" it amounts to.
 */
module Deletion {

  /** `del xs[k]` */
  function RemoveAt<T>(s: seq<T>, k: nat): (r: seq<T>)
    requires k < |s|
    ensures |r| == |s| - 1
    ensures r[..k] == s[..k] && r[k..] == s[k + 1..]
  {
    s[..k] + s[k + 1..]
  }

  predicate StrictlyIncreasing(idx: seq<nat>)
  {
    forall a, b :: 0 <= a < b < |idx| ==> idx[a] < idx[b]
  }

  /** The indices are increasing and all address an element of `s`. */
  predicate DeletableFrom<T>(s: seq<T>, idx: seq<nat>)
  {
    StrictlyIncreasing(idx) && forall a :: 0 <= a < |idx| ==> idx[a] < |s|
  }

  /** Appending a position above all others keeps the positions increasing. */
  lemma {:induction false} IncreasingSnoc(idx0: seq<nat>, n: nat)
    requires StrictlyIncreasing(idx0) && forall a :: 0 <= a < |idx0| ==> idx0[a] < n
    ensures StrictlyIncreasing(idx0 + [n])
  {
    var idx := idx0 + [n];
    forall a, b | 0 <= a < b < |idx|
      ensures idx[a] < idx[b]
    {
      assert idx[a] == idx0[a];
      if b < |idx0| {
        assert idx[b] == idx0[b];
      }
    }
  }

  /** Deletes the flagged indices one by one, the last (largest) first. */
  function DeleteInReverse<T>(s: seq<T>, idx: seq<nat>): seq<T>
    requires DeletableFrom(s, idx)
    decreases |idx|
  {
    if |idx| == 0 then s
    else
      var k := idx[|idx| - 1];
      DeleteInReverse(RemoveAt(s, k), idx[..|idx| - 1])
  }

  /** The elements of `s` whose index is not in `flagged`, in their original order. */
  function Without<T>(s: seq<T>, flagged: set<nat>): (r: seq<T>)
    ensures |r| <= |s|
    ensures forall x :: x in r ==> x in s
    decreases |s|
  {
    if |s| == 0 then []
    else
      var rest := Without(s[..|s| - 1], flagged);
      if |s| - 1 in flagged then rest else rest + [s[|s| - 1]]
  }

  function Elems(idx: seq<nat>): set<nat>
  {
    set k | k in idx
  }

  /** With nothing flagged, nothing is removed. */
  lemma {:induction false} WithoutNothing<T>(s: seq<T>)
    ensures Without(s, {}) == s
    decreases |s|
  {
    if |s| > 0 {
      WithoutNothing(s[..|s| - 1]);
    }
  }

  /** Only the flags below `|s|` matter. */
  lemma {:induction false} WithoutCongruent<T>(s: seq<T>, a: set<nat>, b: set<nat>)
    requires forall k: nat :: k < |s| ==> (k in a <==> k in b)
    ensures Without(s, a) == Without(s, b)
    decreases |s|
  {
    if |s| > 0 {
      WithoutCongruent(s[..|s| - 1], a, b);
    }
  }

  /** When every flag is below `n`, the elements from `n` on all survive, in order, at the end. */
  lemma {:induction false} WithoutKeepsSuffix<T>(s: seq<T>, flagged: set<nat>, n: nat)
    requires n <= |s|
    requires forall k :: k in flagged ==> k < n
    ensures Without(s, flagged) == Without(s[..n], flagged) + s[n..]
    decreases |s|
  {
    if |s| > n {
      var init := s[..|s| - 1];
      WithoutKeepsSuffix(init, flagged, n);
      assert init[..n] == s[..n];
      assert init[n..] + [s[|s| - 1]] == s[n..];
    } else {
      assert s[..n] == s;
    }
  }

  /** Replacing entry `m` and deleting only entries before it leaves the new entry and everything after it as the result's tail. */
  lemma {:induction false} WithoutEndsWith<T>(s: seq<T>, flagged: set<nat>, m: nat, x: T)
    requires m < |s|
    requires forall k :: k in flagged ==> k < m
    ensures var r := Without(s[m := x], flagged); var tail := [x] + s[m + 1..];
      |r| >= |tail| && r[|r| - |tail|..] == tail
  {
    var t := s[m := x];
    WithoutKeepsSuffix(t, flagged, m);
    assert t[m..] == [x] + s[m + 1..];
  }

  /** In an increasing index list every index but the last lies below the last one. */
  lemma {:induction false} FlagsBelowLast(idx: seq<nat>, init: seq<nat>)
    requires StrictlyIncreasing(idx) && |idx| > 0 && init == idx[..|idx| - 1]
    ensures forall j :: j in Elems(init) ==> j < idx[|idx| - 1]
    ensures forall j :: j in Elems(idx) ==> j <= idx[|idx| - 1]
    ensures idx[|idx| - 1] in Elems(idx)
  {
  }

  /** Removing the element at the last flagged index `k` is the same as flagging it. */
  lemma {:induction false} RemoveLastFlag<T>(s: seq<T>, idx: seq<nat>)
    requires DeletableFrom(s, idx) && |idx| > 0
    ensures DeletableFrom(RemoveAt(s, idx[|idx| - 1]), idx[..|idx| - 1])
    ensures Without(RemoveAt(s, idx[|idx| - 1]), Elems(idx[..|idx| - 1])) == Without(s, Elems(idx))
  {
    var k := idx[|idx| - 1];
    var init := idx[..|idx| - 1];
    var t := RemoveAt(s, k);
    FlagsBelowLast(idx, init);
    // After removing index k, the flags of the shorter list all lie before k.
    WithoutKeepsSuffix(t, Elems(init), k);
    // In the original list, index k is flagged and every flag lies before k + 1.
    WithoutKeepsSuffix(s, Elems(idx), k + 1);
    var head := s[..k + 1];
    assert head[..k] == s[..k];
    assert Without(head, Elems(idx)) == Without(s[..k], Elems(idx));
    WithoutCongruent(s[..k], Elems(idx), Elems(init));
  }

  /** Deleting in reverse index order removes exactly the flagged elements and keeps the rest in order. */
  lemma {:induction false} DeleteInReverseIsWithout<T>(s: seq<T>, idx: seq<nat>)
    requires DeletableFrom(s, idx)
    ensures DeleteInReverse(s, idx) == Without(s, Elems(idx))
    decreases |idx|
  {
    if |idx| == 0 {
      WithoutNothing(s);
      WithoutCongruent(s, {}, Elems(idx));
    } else {
      RemoveLastFlag(s, idx);
      DeleteInReverseIsWithout(RemoveAt(s, idx[|idx| - 1]), idx[..|idx| - 1]);
    }
  }
}
