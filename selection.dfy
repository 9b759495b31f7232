/** Order-preserving selection of the elements of a sequence that satisfy a test. */
module Selection {

  /** The elements of `s` that pass `p`, in their original order. */
  function Filter<T>(s: seq<T>, p: T -> bool): (r: seq<T>)
    ensures |r| <= |s|
  {
    if s == [] then []
    else
      var init := Filter(s[..|s| - 1], p);
      if p(s[|s| - 1]) then init + [s[|s| - 1]] else init
  }

  /** Every kept element occurs in `s` and passes `p`. */
  lemma {:induction false} FilterSound<T>(s: seq<T>, p: T -> bool)
    ensures forall k :: 0 <= k < |Filter(s, p)| ==> Filter(s, p)[k] in s && p(Filter(s, p)[k])
  {
    if s != [] {
      var n := |s| - 1;
      FilterSound(s[..n], p);
      assert forall x :: x in s[..n] ==> x in s;
    }
  }

  /** The positions of the elements of `s` that pass `p`: increasing, and all of them. */
  function Selected<T>(s: seq<T>, p: T -> bool): (idx: seq<nat>)
    ensures forall k :: 0 <= k < |idx| ==> idx[k] < |s| && p(s[idx[k]])
    ensures forall k, l :: 0 <= k < l < |idx| ==> idx[k] < idx[l]
    ensures forall j :: 0 <= j < |s| && p(s[j]) ==> j in idx
  {
    if s == [] then []
    else
      var init := Selected(s[..|s| - 1], p);
      if p(s[|s| - 1]) then init + [|s| - 1] else init
  }

  /** The filtered sequence is exactly `s` read at the selected positions, so it is an
      order-preserving subsequence holding every passing element of `s`. */
  lemma {:induction false} FilterIsSelection<T>(s: seq<T>, p: T -> bool)
    ensures |Filter(s, p)| == |Selected(s, p)|
    ensures forall k :: 0 <= k < |Selected(s, p)| ==> Filter(s, p)[k] == s[Selected(s, p)[k]]
  {
    if s != [] {
      FilterIsSelection(s[..|s| - 1], p);
    }
  }

  /** An element is kept exactly when it occurs in `s` and passes `p`. */
  lemma FilterMembership<T>(s: seq<T>, p: T -> bool, x: T)
    ensures x in Filter(s, p) <==> x in s && p(x)
  {
    FilterSound(s, p);
    if x in s && p(x) {
      var j :| 0 <= j < |s| && s[j] == x;
      var idx := Selected(s, p);
      var k :| 0 <= k < |idx| && idx[k] == j;
      FilterIsSelection(s, p);
      assert Filter(s, p)[k] == x;
    }
  }

  /** When every element passes, nothing is dropped. */
  lemma {:induction false} FilterKeepsAll<T>(s: seq<T>, p: T -> bool)
    requires forall x :: x in s ==> p(x)
    ensures Filter(s, p) == s
  {
    if s != [] {
      FilterKeepsAll(s[..|s| - 1], p);
      assert s[..|s| - 1] + [s[|s| - 1]] == s;
    }
  }

  /** The filter shrinks the sequence exactly when some element fails the test. */
  lemma {:induction false} FilterShrinks<T>(s: seq<T>, p: T -> bool)
    ensures |Filter(s, p)| < |s| <==> exists j :: 0 <= j < |s| && !p(s[j])
  {
    if s != [] {
      var n := |s| - 1;
      FilterShrinks(s[..n], p);
      if exists j :: 0 <= j < n && !p(s[..n][j]) {
        var j :| 0 <= j < n && !p(s[..n][j]);
        assert !p(s[j]);
      }
      if exists j :: 0 <= j < |s| && !p(s[j]) {
        var j :| 0 <= j < |s| && !p(s[j]);
        if j < n {
          assert !p(s[..n][j]);
        }
      }
    }
  }

  /** Two tests that agree on every element keep the same elements. */
  lemma {:induction false} FilterCongruent<T>(s: seq<T>, p: T -> bool, q: T -> bool)
    requires forall x :: x in s ==> p(x) == q(x)
    ensures Filter(s, p) == Filter(s, q)
  {
    if s != [] {
      assert forall x :: x in s[..|s| - 1] ==> x in s;
      FilterCongruent(s[..|s| - 1], p, q);
    }
  }

  /** Filtering a prefix extended by one element filters the prefix and then tests that element. */
  lemma FilterSnoc<T>(s: seq<T>, x: T, p: T -> bool)
    ensures Filter(s + [x], p) == if p(x) then Filter(s, p) + [x] else Filter(s, p)
  {
    assert (s + [x])[..|s|] == s;
  }

  /** A prefix one element longer is the prefix followed by that element. */
  lemma PrefixSnoc<T>(s: seq<T>, i: nat)
    requires i < |s|
    ensures s[..i + 1] == s[..i] + [s[i]]
  {
  }

  /** The prefix as long as the sequence is the sequence. */
  lemma WholePrefix<T>(s: seq<T>)
    ensures s[..|s|] == s
  {
  }
}
