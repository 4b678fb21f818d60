/** The numpy vocabulary the analysis is written in: slicing, fancy indexing,
    boolean masks, `np.sum` of a mask, boolean-mask selection, `np.in1d`
    and `np.cumsum`, each over finite sequences. */
module Masks {
  import opened Wrappers

  // ---------------------------------------------------------------------
  // Slicing and indexing

  /** `s[:n]`: the first `n` elements, or all of `s` when it is shorter. */
  function Truncate<T>(s: seq<T>, n: nat): (r: seq<T>)
    ensures |r| == if |s| <= n then |s| else n
    ensures r == s[..|r|]
  {
    if |s| <= n then s else s[..n]
  }

  /** An integer index numpy accepts for an axis of length `len`. */
  predicate ValidIndex(len: nat, i: int) {
    -(len as int) <= i < len
  }

  /** The position numpy reads for index `i`: negative indices count from the end. */
  function NpIndex(len: nat, i: int): (k: nat)
    requires ValidIndex(len, i)
    ensures k < len
    ensures i >= 0 ==> k == i
    ensures i < 0 ==> k == len + i
  {
    if i < 0 then len + i else i
  }

  predicate AllValidIndices(len: nat, idx: seq<int>) {
    forall k :: 0 <= k < |idx| ==> ValidIndex(len, idx[k])
  }

  /** `s[idx]` for an integer index array; `None` where numpy raises IndexError. */
  function Take<T>(s: seq<T>, idx: seq<int>): (r: Option<seq<T>>)
    ensures r.Some? <==> AllValidIndices(|s|, idx)
    ensures r.Some? ==> |r.value| == |idx|
    ensures r.Some? ==> forall k :: 0 <= k < |idx| ==> r.value[k] == s[NpIndex(|s|, idx[k])]
    ensures r.Some? ==> forall k :: 0 <= k < |idx| ==> r.value[k] in s
  {
    if AllValidIndices(|s|, idx) then Some(seq(|idx|, k requires 0 <= k < |idx| => s[NpIndex(|s|, idx[k])]))
    else None
  }

  /** Indexing with every position in order, `s[np.arange(len(s))]`, gives `s` back. */
  lemma TakeAllPositions<T>(s: seq<T>)
    ensures Take(s, seq(|s|, k requires 0 <= k < |s| => k)) == Some(s)
  {
    var idx := seq(|s|, k requires 0 <= k < |s| => k);
    assert AllValidIndices(|s|, idx);
    assert Take(s, idx).value == s;
  }

  /** A negative index reads the same element as its non-negative twin: every
      in-range index shifted down by `len(s)` selects the same elements. */
  lemma TakeNegativeTwin<T>(s: seq<T>, idx: seq<int>)
    requires forall k :: 0 <= k < |idx| ==> 0 <= idx[k] < |s|
    ensures Take(s, seq(|idx|, k requires 0 <= k < |idx| => idx[k] - |s|)) == Take(s, idx)
  {
    var twin := seq(|idx|, k requires 0 <= k < |idx| => idx[k] - |s|);
    assert AllValidIndices(|s|, twin) && AllValidIndices(|s|, idx);
    assert Take(s, twin).value == Take(s, idx).value;
  }

  /** Indexing with two index arrays one after the other is indexing with
      each and concatenating; an IndexError in either part is an IndexError
      of the whole. */
  lemma TakeConcat<T>(s: seq<T>, i1: seq<int>, i2: seq<int>)
    ensures Take(s, i1 + i2).Some? <==> Take(s, i1).Some? && Take(s, i2).Some?
    ensures Take(s, i1 + i2).Some? ==> Take(s, i1 + i2).value == Take(s, i1).value + Take(s, i2).value
  {
    if AllValidIndices(|s|, i1) && AllValidIndices(|s|, i2) {
      assert AllValidIndices(|s|, i1 + i2) by {
        forall k | 0 <= k < |i1 + i2| ensures ValidIndex(|s|, (i1 + i2)[k]) {
          if k >= |i1| {
            assert (i1 + i2)[k] == i2[k - |i1|];
          }
        }
      }
    } else if !AllValidIndices(|s|, i1) {
      var k :| 0 <= k < |i1| && !ValidIndex(|s|, i1[k]);
      assert (i1 + i2)[k] == i1[k];
    } else {
      var k :| 0 <= k < |i2| && !ValidIndex(|s|, i2[k]);
      assert (i1 + i2)[|i1| + k] == i2[k];
    }
  }

  /** `np.diff(t)`: the differences of neighbouring elements. */
  function Diff(t: seq<real>): (d: seq<real>)
    ensures |d| == if |t| == 0 then 0 else |t| - 1
    ensures forall i :: 0 <= i < |d| ==> d[i] == t[i + 1] - t[i]
  {
    if |t| < 2 then [] else [t[1] - t[0]] + Diff(t[1..])
  }

  /** numpy's element-wise `d > c`. */
  function Above(d: seq<real>, c: real): (r: seq<bool>)
    ensures |r| == |d|
    ensures forall i :: 0 <= i < |d| ==> (r[i] <==> d[i] > c)
  {
    seq(|d|, i requires 0 <= i < |d| => d[i] > c)
  }

  // ---------------------------------------------------------------------
  // Element-wise boolean operations

  function And(a: seq<bool>, b: seq<bool>): (r: seq<bool>)
    requires |a| == |b|
    ensures |r| == |a|
    ensures forall i :: 0 <= i < |r| ==> r[i] == (a[i] && b[i])
  {
    seq(|a|, i requires 0 <= i < |a| => a[i] && b[i])
  }

  function Not(a: seq<bool>): (r: seq<bool>)
    ensures |r| == |a|
    ensures forall i :: 0 <= i < |r| ==> r[i] == !a[i]
  {
    seq(|a|, i requires 0 <= i < |a| => !a[i])
  }

  /** `np.in1d(xs, ys)`: which elements of `xs` occur in `ys`. */
  function In1d<T(==)>(xs: seq<T>, ys: seq<T>): (r: seq<bool>)
    ensures |r| == |xs|
    ensures forall i :: 0 <= i < |r| ==> (r[i] <==> xs[i] in ys)
  {
    seq(|xs|, i requires 0 <= i < |xs| => xs[i] in ys)
  }

  // ---------------------------------------------------------------------
  // Counting: `np.sum` of a boolean array

  function CountTrue(m: seq<bool>): (c: nat)
    ensures c <= |m|
  {
    if m == [] then 0 else CountTrue(m[..|m| - 1]) + (if m[|m| - 1] then 1 else 0)
  }

  lemma CountTrueStep(m: seq<bool>, k: nat)
    requires k < |m|
    ensures CountTrue(m[..k + 1]) == CountTrue(m[..k]) + (if m[k] then 1 else 0)
  {
    assert m[..k + 1][..k] == m[..k];
  }

  lemma {:induction false} CountTrueAppend(a: seq<bool>, b: seq<bool>)
    ensures CountTrue(a + b) == CountTrue(a) + CountTrue(b)
    decreases |b|
  {
    if b == [] {
      assert a + b == a;
    } else {
      var b' := b[..|b| - 1];
      assert (a + b)[..|a + b| - 1] == a + b';
      CountTrueAppend(a, b');
    }
  }

  /** More elements never decrease the count of a prefix. */
  lemma {:induction false} CountTruePrefixMonotone(m: seq<bool>, i: nat, j: nat)
    requires i <= j <= |m|
    ensures CountTrue(m[..i]) <= CountTrue(m[..j])
    decreases j - i
  {
    if i < j {
      CountTrueStep(m, j - 1);
      CountTruePrefixMonotone(m, i, j - 1);
    }
  }

  /** A mask that implies another counts no more of it. */
  lemma {:induction false} CountTrueSubset(a: seq<bool>, b: seq<bool>)
    requires |a| == |b|
    requires forall i :: 0 <= i < |a| && a[i] ==> b[i]
    ensures CountTrue(a) <= CountTrue(b)
  {
    if a != [] {
      CountTrueSubset(a[..|a| - 1], b[..|b| - 1]);
    }
  }

  /** Two masks that are never both true count, together, their union. */
  lemma {:induction false} CountTrueDisjointUnion(a: seq<bool>, b: seq<bool>, u: seq<bool>)
    requires |a| == |b| == |u|
    requires forall i :: 0 <= i < |a| ==> !(a[i] && b[i]) && (u[i] <==> a[i] || b[i])
    ensures CountTrue(u) == CountTrue(a) + CountTrue(b)
  {
    if a != [] {
      CountTrueDisjointUnion(a[..|a| - 1], b[..|b| - 1], u[..|u| - 1]);
    }
  }

  /** A mask with no true element counts zero; one that is all true counts its length. */
  lemma {:induction false} CountTrueExtremes(m: seq<bool>)
    ensures (forall i :: 0 <= i < |m| ==> !m[i]) ==> CountTrue(m) == 0
    ensures (forall i :: 0 <= i < |m| ==> m[i]) ==> CountTrue(m) == |m|
  {
    if m != [] {
      CountTrueExtremes(m[..|m| - 1]);
    }
  }

  /** A mask counts zero exactly when none of its elements is true. */
  lemma {:induction false} CountTrueZero(m: seq<bool>)
    ensures CountTrue(m) == 0 <==> forall i :: 0 <= i < |m| ==> !m[i]
  {
    if m != [] {
      CountTrueZero(m[..|m| - 1]);
      if CountTrue(m) == 0 {
        forall i | 0 <= i < |m| ensures !m[i] {
          if i < |m| - 1 {
            assert m[..|m| - 1][i] == m[i];
          }
        }
      }
    }
  }

  // ---------------------------------------------------------------------
  // Boolean-mask selection: `s[mask]`

  function Compress<T>(s: seq<T>, m: seq<bool>): (r: seq<T>)
    requires |s| == |m|
    ensures |r| == CountTrue(m)
  {
    if s == [] then []
    else Compress(s[..|s| - 1], m[..|m| - 1]) + (if m[|m| - 1] then [s[|s| - 1]] else [])
  }

  lemma CompressStep<T>(s: seq<T>, m: seq<bool>, k: nat)
    requires |s| == |m| && k < |s|
    ensures Compress(s[..k + 1], m[..k + 1]) == Compress(s[..k], m[..k]) + (if m[k] then [s[k]] else [])
  {
    assert s[..k + 1][..k] == s[..k];
    assert m[..k + 1][..k] == m[..k];
  }

  /** `s[mask]` keeps exactly the elements at the true positions, in their order. */
  ghost predicate SelectsPositions<T>(r: seq<T>, s: seq<T>, m: seq<bool>, idx: seq<nat>)
    requires |s| == |m|
  {
    && |idx| == |r|
    && (forall k :: 0 <= k < |idx| ==> idx[k] < |s| && m[idx[k]] && r[k] == s[idx[k]])
    && (forall k, l :: 0 <= k < l < |idx| ==> idx[k] < idx[l])
    && (forall i :: 0 <= i < |s| && m[i] ==> i in idx)
  }

  lemma {:induction false} CompressPositions<T>(s: seq<T>, m: seq<bool>) returns (idx: seq<nat>)
    requires |s| == |m|
    ensures SelectsPositions(Compress(s, m), s, m, idx)
  {
    if s == [] {
      idx := [];
    } else {
      var n := |s| - 1;
      var r', r := Compress(s[..n], m[..n]), Compress(s, m);
      var idx' := CompressPositions(s[..n], m[..n]);
      assert r == r' + (if m[n] then [s[n]] else []);
      idx := if m[n] then idx' + [n] else idx';
      forall k | 0 <= k < |idx|
        ensures idx[k] < |s| && m[idx[k]] && r[k] == s[idx[k]]
      {
        if k < |idx'| {
          assert idx[k] == idx'[k] && r[k] == r'[k];
          assert m[..n][idx'[k]] == m[idx'[k]];
          assert s[..n][idx'[k]] == s[idx'[k]];
        }
      }
      forall k, l | 0 <= k < l < |idx|
        ensures idx[k] < idx[l]
      {
        assert idx[k] == idx'[k];
        assert idx'[k] < n by {
          assert idx'[k] < |s[..n]|;
        }
        if l < |idx'| {
          assert idx[l] == idx'[l];
        }
      }
      forall i | 0 <= i < |s| && m[i]
        ensures i in idx
      {
        if i < n {
          assert m[..n][i] == m[i];
          assert i in idx';
        }
      }
    }
  }

  /** When every position is selected, selection is the identity. */
  lemma {:induction false} CompressAllTrue<T>(s: seq<T>, m: seq<bool>)
    requires |s| == |m|
    requires forall i :: 0 <= i < |m| ==> m[i]
    ensures Compress(s, m) == s
  {
    if s != [] {
      CompressAllTrue(s[..|s| - 1], m[..|m| - 1]);
    }
  }

  /** Counting after selection is counting the conjunction: `x[mask].sum() == (x & mask).sum()`. */
  lemma {:induction false} CountCompress(x: seq<bool>, m: seq<bool>)
    requires |x| == |m|
    ensures CountTrue(Compress(x, m)) == CountTrue(And(x, m))
  {
    if x != [] {
      var n := |x| - 1;
      var c' := Compress(x[..n], m[..n]);
      CountCompress(x[..n], m[..n]);
      assert And(x, m)[..n] == And(x[..n], m[..n]);
      assert CountTrue(And(x, m)) == CountTrue(And(x[..n], m[..n])) + (if x[n] && m[n] then 1 else 0);
      if m[n] {
        assert Compress(x, m) == c' + [x[n]];
        assert (c' + [x[n]])[..|c'|] == c';
      } else {
        assert Compress(x, m) == c' + [];
        assert c' + [] == c';
      }
    }
  }

  // ---------------------------------------------------------------------
  // Sums of reals: `np.sum` and `np.cumsum`

  function Sum(xs: seq<real>): real {
    if xs == [] then 0.0 else Sum(xs[..|xs| - 1]) + xs[|xs| - 1]
  }

  lemma SumStep(xs: seq<real>, k: nat)
    requires k < |xs|
    ensures Sum(xs[..k + 1]) == Sum(xs[..k]) + xs[k]
  {
    assert xs[..k + 1][..k] == xs[..k];
  }

  /** Prefix sums of non-negative terms never decrease. */
  lemma {:induction false} SumPrefixMonotone(xs: seq<real>, i: nat, j: nat)
    requires i <= j <= |xs|
    requires forall k :: 0 <= k < |xs| ==> xs[k] >= 0.0
    ensures Sum(xs[..i]) <= Sum(xs[..j])
    decreases j - i
  {
    if i < j {
      SumStep(xs, j - 1);
      SumPrefixMonotone(xs, i, j - 1);
    }
  }

  /** A sum of ones is the number of terms. */
  lemma {:induction false} SumOfOnes(xs: seq<real>)
    requires forall k :: 0 <= k < |xs| ==> xs[k] == 1.0
    ensures Sum(xs) == |xs| as real
  {
    if xs != [] {
      SumOfOnes(xs[..|xs| - 1]);
    }
  }

  /** `np.cumsum(xs)`: element `k` is the sum of the first `k + 1` terms. */
  function CumSum(xs: seq<real>): (r: seq<real>)
    ensures |r| == |xs|
  {
    seq(|xs|, k requires 0 <= k < |xs| => Sum(xs[..k + 1]))
  }
}
