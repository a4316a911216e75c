/**
  The nucleus of native_imp.py: sort the block probabilities, take the cumulative sum, keep the
  prefix with mass at most alpha and always the first, and scatter the flags back to the blocks.
  Floats are reals; the block scores are given and non-negative.
 */
module BlockSelection {
  function Sum(s: seq<real>): real {
    if s == [] then 0.0 else Sum(s[..|s| - 1]) + s[|s| - 1]
  }

  ghost predicate NonNegative(s: seq<real>) { forall i :: 0 <= i < |s| ==> 0.0 <= s[i] }

  /** A permutation of 0, ..., n - 1. */
  ghost predicate IsPermutation(order: seq<nat>, n: nat) {
    && |order| == n
    && (forall i :: 0 <= i < n ==> order[i] < n)
    && (forall i, j :: 0 <= i < j < n ==> order[i] != order[j])
    && forall b :: 0 <= b < n ==> b in order
  }

  function Gather<T>(s: seq<T>, order: seq<nat>): (r: seq<T>)
    requires forall i :: 0 <= i < |order| ==> order[i] < |s|
    ensures |r| == |order| && forall i :: 0 <= i < |order| ==> r[i] == s[order[i]]
  {
    seq(|order|, i requires 0 <= i < |order| => s[order[i]])
  }

  ghost predicate Descending(s: seq<real>) { forall i, j :: 0 <= i <= j < |s| ==> s[i] >= s[j] }

  /** order sorts p in descending order; ties may fall either way, as in torch.sort. */
  ghost predicate Sorts(order: seq<nat>, p: seq<real>) {
    IsPermutation(order, |p|) && Descending(Gather(p, order))
  }

  /**
    The nucleus takes k blocks: the longest prefix with mass at most alpha, or the first block
    alone when even that has more.
   */
  ghost predicate IsNucleusSize(sorted: seq<real>, alpha: real, k: nat) {
    && 1 <= k <= |sorted|
    && (k == 1 || Sum(sorted[..k]) <= alpha)
    && (k < |sorted| ==> Sum(sorted[..k + 1]) > alpha)
  }

  // ---------- sums ----------

  lemma {:induction false} SumConcat(a: seq<real>, b: seq<real>)
    ensures Sum(a + b) == Sum(a) + Sum(b)
  {
    if b == [] {
      assert a + b == a;
    } else {
      var n := |b| - 1;
      assert (a + b)[..|a + b| - 1] == a + b[..n];
      SumConcat(a, b[..n]);
    }
  }

  lemma {:induction false} SumOfZeros(s: seq<real>)
    requires forall i :: 0 <= i < |s| ==> s[i] == 0.0
    ensures Sum(s) == 0.0
  {
    if s != [] { SumOfZeros(s[..|s| - 1]); }
  }

  lemma DivAdds(x: real, y: real, d: real)
    requires d != 0.0
    ensures (x + y) / d == x / d + y / d
  {}

  lemma {:induction false} SumDivides(a: seq<real>, c: seq<real>, d: real)
    requires d != 0.0 && |a| == |c| && forall i :: 0 <= i < |c| ==> c[i] == a[i] / d
    ensures Sum(c) == Sum(a) / d
  {
    if c != [] {
      var n := |c| - 1;
      SumDivides(a[..n], c[..n], d);
      DivAdds(Sum(a[..n]), a[n], d);
    }
  }

  lemma QuotientMonotone(x: real, y: real, d: real)
    requires d > 0.0
    ensures x >= y <==> x / d >= y / d
  {}

  lemma {:induction false} PrefixSumsGrow(s: seq<real>, i: nat, j: nat)
    requires NonNegative(s) && i <= j <= |s|
    ensures Sum(s[..i]) <= Sum(s[..j])
  {
    if i < j {
      PrefixSumsGrow(s, i, j - 1);
      assert s[..j][..j - 1] == s[..j - 1];
    }
  }

  lemma SumInsert(a: seq<real>, x: real, b: seq<real>)
    ensures Sum(a + [x] + b) == Sum(a + b) + x
  {
    SumConcat(a + [x], b);
    SumConcat(a, [x]);
    SumConcat(a, b);
    assert [x][..0] == [];
  }

  lemma RemoveLast(order: seq<nat>, n: nat, j: nat)
    requires IsPermutation(order, n + 1) && j <= n && order[j] == n
    ensures IsPermutation(order[..j] + order[j + 1..], n)
  {
    var r := order[..j] + order[j + 1..];
    forall i | 0 <= i < n ensures r[i] < n {
      assert r[i] == order[if i < j then i else i + 1];
    }
    forall b | 0 <= b < n ensures b in r {
      assert b in order;
      var i :| 0 <= i < |order| && order[i] == b;
      assert r[if i < j then i else i - 1] == b;
    }
  }

  lemma GatherInsert(f: seq<real>, order: seq<nat>, n: nat, j: nat)
    requires IsPermutation(order, |f|) && |f| == n + 1 && j <= n && order[j] == n
    requires IsPermutation(order[..j] + order[j + 1..], n)
    ensures var g := Gather(f, order);
            && g == g[..j] + [f[n]] + g[j + 1..]
            && Gather(f[..n], order[..j] + order[j + 1..]) == g[..j] + g[j + 1..]
  {}

  /** A sum does not depend on the order of its terms. */
  lemma {:induction false} SumOfPermutation(f: seq<real>, order: seq<nat>)
    requires IsPermutation(order, |f|)
    ensures Sum(Gather(f, order)) == Sum(f)
    decreases |f|
  {
    if f != [] {
      var n := |f| - 1;
      assert n in order;
      var j :| 0 <= j < |order| && order[j] == n;
      RemoveLast(order, n, j);
      SumOfPermutation(f[..n], order[..j] + order[j + 1..]);
      GatherInsert(f, order, n, j);
      SumInsert(Gather(f, order)[..j], f[n], Gather(f, order)[j + 1..]);
    }
  }

  // ---------- the nucleus has the most mass for its size ----------

  /** The mass of the blocks that a mask selects, and how many there are. */
  function Weighted(p: seq<real>, mask: seq<bool>): (r: seq<real>)
    requires |mask| == |p|
    ensures |r| == |p| && forall i :: 0 <= i < |p| ==> r[i] == if mask[i] then p[i] else 0.0
  {
    seq(|p|, i requires 0 <= i < |p| => if mask[i] then p[i] else 0.0)
  }

  function Mass(p: seq<real>, mask: seq<bool>): real
    requires |mask| == |p|
  {
    Sum(Weighted(p, mask))
  }

  function CountTrue(mask: seq<bool>): (n: nat)
    ensures n <= |mask|
  {
    if mask == [] then 0 else CountTrue(mask[..|mask| - 1]) + if mask[|mask| - 1] then 1 else 0
  }

  lemma MassStep(p: seq<real>, mask: seq<bool>, n: nat)
    requires |mask| == |p| == n + 1
    ensures Mass(p, mask) == Mass(p[..n], mask[..n]) + if mask[n] then p[n] else 0.0
  {
    assert Weighted(p, mask)[..n] == Weighted(p[..n], mask[..n]);
  }

  lemma PrefixSumStep(s: seq<real>, k: nat)
    requires k < |s|
    ensures Sum(s[..k + 1]) == Sum(s[..k]) + s[k]
  {
    assert s[..k + 1][..k] == s[..k];
  }

  /** In a descending list no k terms add up to more than the first k. */
  lemma {:induction false} FirstAreHeaviest(s: seq<real>, mask: seq<bool>)
    requires Descending(s) && |mask| == |s|
    ensures Mass(s, mask) <= Sum(s[..CountTrue(mask)])
  {
    if s != [] {
      var n := |s| - 1;
      var k := CountTrue(mask[..n]);
      assert s[k] >= s[n];
      assert Mass(s[..n], mask[..n]) <= Sum(s[..k]) by {
        FirstAreHeaviest(s[..n], mask[..n]);
        assert s[..n][..k] == s[..k];
      }
      MassStep(s, mask, n);
      PrefixSumStep(s, k);
    }
  }

  lemma {:induction false} CountAsMass(mask: seq<bool>, ones: seq<real>)
    requires |ones| == |mask| && forall i :: 0 <= i < |ones| ==> ones[i] == 1.0
    ensures Mass(ones, mask) == CountTrue(mask) as real
  {
    if mask != [] {
      var n := |mask| - 1;
      CountAsMass(mask[..n], ones[..n]);
      MassStep(ones, mask, n);
    }
  }

  lemma CountIsPermutationFree(mask: seq<bool>, order: seq<nat>)
    requires IsPermutation(order, |mask|)
    ensures CountTrue(Gather(mask, order)) == CountTrue(mask)
  {
    var ones := seq(|mask|, i requires 0 <= i < |mask| => 1.0);
    CountAsMass(mask, ones);
    SumOfPermutation(Weighted(ones, mask), order);
    assert Gather(Weighted(ones, mask), order) == Weighted(ones, Gather(mask, order));
    CountAsMass(Gather(mask, order), ones);
  }

  lemma MassIsPermutationFree(p: seq<real>, order: seq<nat>, mask: seq<bool>)
    requires IsPermutation(order, |p|) && |mask| == |p|
    ensures Mass(Gather(p, order), Gather(mask, order)) == Mass(p, mask)
  {
    SumOfPermutation(Weighted(p, mask), order);
    assert Gather(Weighted(p, mask), order) == Weighted(Gather(p, order), Gather(mask, order));
  }

  /** No set of blocks of the same size has more mass than the first blocks of the order. */
  lemma NucleusIsHeaviest(p: seq<real>, order: seq<nat>, mask: seq<bool>)
    requires Sorts(order, p) && |mask| == |p|
    ensures Mass(p, mask) <= Sum(Gather(p, order)[..CountTrue(mask)])
  {
    MassIsPermutationFree(p, order, mask);
    CountIsPermutationFree(mask, order);
    FirstAreHeaviest(Gather(p, order), Gather(mask, order));
  }

  // ---------- what the selected mask is ----------

  /** The blocks scattered from the first k places of the order. */
  ghost predicate IsNucleus(mask: seq<bool>, order: seq<nat>, k: nat) {
    && |mask| == |order| && k <= |order|
    && forall i :: 0 <= i < |order| ==> order[i] < |mask| && (mask[order[i]] <==> i < k)
  }

  lemma {:induction false} CountPrefix(mask: seq<bool>, k: nat)
    requires k <= |mask| && forall i :: 0 <= i < |mask| ==> (mask[i] <==> i < k)
    ensures CountTrue(mask) == k
  {
    if mask != [] {
      var n := |mask| - 1;
      if k <= n { CountPrefix(mask[..n], k); } else { CountPrefix(mask[..n], n); }
    }
  }

  lemma {:induction false} MassOfPrefix(s: seq<real>, mask: seq<bool>, k: nat)
    requires k <= |mask| == |s| && forall i :: 0 <= i < |mask| ==> (mask[i] <==> i < k)
    ensures Mass(s, mask) == Sum(s[..k])
  {
    if s != [] {
      var n := |s| - 1;
      MassOfPrefix(s[..n], mask[..n], if k <= n then k else n);
      MassStep(s, mask, n);
      if k <= n { assert s[..n][..k] == s[..k]; } else { assert s[..k] == s && s[..n][..n] == s[..n]; }
    }
  }

  /** The nucleus has k blocks and the mass of the first k places. */
  lemma NucleusCountAndMass(p: seq<real>, order: seq<nat>, mask: seq<bool>, k: nat)
    requires Sorts(order, p) && IsNucleus(mask, order, k)
    ensures CountTrue(mask) == k && Mass(p, mask) == Sum(Gather(p, order)[..k])
  {
    CountIsPermutationFree(mask, order);
    CountPrefix(Gather(mask, order), k);
    MassIsPermutationFree(p, order, mask);
    MassOfPrefix(Gather(p, order), Gather(mask, order), k);
  }

  lemma OutsideNeverOutscores(p: seq<real>, order: seq<nat>, mask: seq<bool>, k: nat, a: nat, b: nat)
    requires Sorts(order, p) && IsNucleus(mask, order, k)
    requires a < |p| && b < |p| && mask[a] && !mask[b]
    ensures p[a] >= p[b]
  {
    assert a in order && b in order;
    var i :| 0 <= i < |order| && order[i] == a;
    var j :| 0 <= j < |order| && order[j] == b;
    assert Gather(p, order)[i] >= Gather(p, order)[j];
  }

  lemma NextBlockExceeds(p: seq<real>, order: seq<nat>, mask: seq<bool>, k: nat, alpha: real)
    requires Sorts(order, p) && IsNucleus(mask, order, k) && IsNucleusSize(Gather(p, order), alpha, k) && k < |p|
    ensures Mass(p, mask[order[k] := true]) > alpha
    ensures forall b :: 0 <= b < |p| && !mask[b] ==> p[b] <= p[order[k]]
  {
    var more := mask[order[k] := true];
    assert IsNucleus(more, order, k + 1);
    NucleusCountAndMass(p, order, more, k + 1);
    forall b | 0 <= b < |p| && !mask[b] ensures p[b] <= p[order[k]] {
      if !more[b] { OutsideNeverOutscores(p, order, more, k + 1, order[k], b); }
    }
  }

  /**
    Optimality: no block outside outscores one inside; no set of the same size has more mass; the
    mass is at most alpha unless the nucleus is one block; and adding the best block left exceeds alpha.
   */
  lemma NucleusIsOptimal(p: seq<real>, order: seq<nat>, mask: seq<bool>, k: nat, alpha: real)
    requires Sorts(order, p) && IsNucleus(mask, order, k) && IsNucleusSize(Gather(p, order), alpha, k)
    ensures forall a, b :: 0 <= a < |p| && 0 <= b < |p| && mask[a] && !mask[b] ==> p[a] >= p[b]
    ensures forall other: seq<bool> :: |other| == |p| && CountTrue(other) == CountTrue(mask) ==>
              Mass(p, other) <= Mass(p, mask)
    ensures CountTrue(mask) == 1 || Mass(p, mask) <= alpha
    ensures k < |p| ==> Mass(p, mask[order[k] := true]) > alpha
                        && forall b :: 0 <= b < |p| && !mask[b] ==> p[b] <= p[order[k]]
  {
    forall a, b | 0 <= a < |p| && 0 <= b < |p| && mask[a] && !mask[b] ensures p[a] >= p[b] {
      OutsideNeverOutscores(p, order, mask, k, a, b);
    }
    NucleusCountAndMass(p, order, mask, k);
    forall other: seq<bool> | |other| == |p| && CountTrue(other) == CountTrue(mask)
      ensures Mass(p, other) <= Mass(p, mask)
    {
      NucleusIsHeaviest(p, order, other);
    }
    if k < |p| { NextBlockExceeds(p, order, mask, k, alpha); }
  }
}
