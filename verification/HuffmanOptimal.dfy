/** Why compute_code_lengths (utils/cwb-huffcode.c) merges the two least frequent roots: the depths of
    the leaves are then code lengths of least total cost, and long codes need many tokens. */
module HuffmanOptimal {
  import opened BitIO
  import opened HuffmanTree

  // ----- sums

  function Sum(t: seq<int>): int
  {
    if t == [] then 0 else Sum(t[..|t| - 1]) + t[|t| - 1]
  }

  lemma {:induction false} SumUpdate(t: seq<int>, i: nat, v: int)
    requires i < |t|
    ensures Sum(t[i := v]) == Sum(t) - t[i] + v
  {
    var m := |t| - 1;
    if i == m {
      assert t[i := v][..m] == t[..m];
    } else {
      assert t[i := v][..m] == t[..m][i := v];
      SumUpdate(t[..m], i, v);
    }
  }

  lemma {:induction false} SumNonNegative(t: seq<int>)
    requires forall i :: 0 <= i < |t| ==> t[i] >= 0
    ensures Sum(t) >= 0
  {
    if t != [] { SumNonNegative(t[..|t| - 1]); }
  }

  lemma {:induction false} SumDouble(s: seq<int>, t: seq<int>)
    requires |s| == |t| && forall i :: 0 <= i < |t| ==> s[i] == 2 * t[i]
    ensures Sum(s) == 2 * Sum(t)
  {
    if t != [] { SumDouble(s[..|s| - 1], t[..|t| - 1]); }
  }

  lemma {:induction false} SumBehindZeros(s: seq<int>, n: nat)
    requires n <= |s| && forall i :: 0 <= i < n ==> s[i] == 0
    ensures Sum(s) == Sum(s[n..])
  {
    if n < |s| {
      SumBehindZeros(s[..|s| - 1], n);
      assert s[n..][..|s| - n - 1] == s[..|s| - 1][n..];
    } else if n > 0 {
      assert s[n..] == [] == s[..|s| - 1][n - 1..];
      SumBehindZeros(s[..|s| - 1], n - 1);
    }
  }

  // ----- sums over the roots in front of which node `k` is made

  /** The nodes that are roots just before `k` is made. */
  predicate IsRoot(parent: seq<int>, k: int, p: int)
  {
    0 <= p < |parent| && k < p && parent[p] <= k
  }

  function RootsOnly(parent: seq<int>, k: int, x: seq<int>): (t: seq<int>)
    ensures |t| == |x|
  {
    seq(|x|, p requires 0 <= p < |x| => if IsRoot(parent, k, p) then x[p] else 0)
  }

  function Over(parent: seq<int>, k: int, x: seq<int>): int
  {
    Sum(RootsOnly(parent, k, x))
  }

  /** One merge: the new root `k` takes the place of its two children. */
  lemma OverStep(n: nat, parent: seq<int>, left: seq<int>, right: seq<int>, k: nat, x: seq<int>, y: seq<int>)
    requires Tree(n, parent, left, right) && 1 <= k < n && |x| == |y| == 2 * n
    requires forall p :: 0 <= p < 2 * n && p != k ==> x[p] == y[p]
    ensures 0 <= left[k] < 2 * n && 0 <= right[k] < 2 * n
    ensures Over(parent, k, x) == Over(parent, k - 1, y) - y[k] + x[left[k]] + x[right[k]]
  {
    hide Sum;
    assert TwoChildren(n, parent, left, right, k);
    var t := RootsOnly(parent, k - 1, y);
    var t1 := t[k := 0];
    var t2 := t1[left[k] := x[left[k]]];
    var t3 := t2[right[k] := x[right[k]]];
    SumUpdate(t, k, 0);
    SumUpdate(t1, left[k], x[left[k]]);
    SumUpdate(t2, right[k], x[right[k]]);
    assert parent[k] <= k - 1;
    assert t3 == RootsOnly(parent, k, x);
  }

  lemma OverUpdate(parent: seq<int>, k: int, x: seq<int>, p: nat, v: int)
    requires |x| == |parent| && IsRoot(parent, k, p)
    ensures Over(parent, k, x[p := v]) == Over(parent, k, x) - x[p] + v
  {
    hide Sum;
    SumUpdate(RootsOnly(parent, k, x), p, v);
    assert RootsOnly(parent, k, x[p := v]) == RootsOnly(parent, k, x)[p := v];
  }

  // ----- the tree made by merging two lightest roots

  ghost predicate Greedy(n: nat, parent: seq<int>, left: seq<int>, right: seq<int>, w: seq<int>, k: nat)
    requires |parent| == |w| == 2 * n && |left| == |right| == n && k < n
  {
    0 <= left[k] < 2 * n && 0 <= right[k] < 2 * n && w[k] == w[left[k]] + w[right[k]] &&
    forall p :: IsRoot(parent, k, p) ==> w[left[k]] <= w[p] && (p != left[k] ==> w[right[k]] <= w[p])
  }

  ghost predicate GreedyTree(n: nat, parent: seq<int>, left: seq<int>, right: seq<int>, w: seq<int>)
  {
    Tree(n, parent, left, right) && |w| == 2 * n && (forall p :: n <= p < 2 * n ==> w[p] >= 1) &&
    forall k :: 1 <= k < n ==> Greedy(n, parent, left, right, w, k)
  }

  /** The weights of the inner nodes `1 .. k`. */
  ghost function Inner(w: seq<int>, k: nat): int
    requires k < |w| || k == 0
  {
    if k == 0 then 0 else Inner(w, k - 1) + w[k]
  }

  lemma {:induction false} WeightsPositive(n: nat, parent: seq<int>, left: seq<int>, right: seq<int>, w: seq<int>, p: nat)
    requires GreedyTree(n, parent, left, right, w) && 1 <= p < 2 * n
    ensures w[p] >= 1
    decreases 2 * n - p
  {
    if p < n {
      assert TwoChildren(n, parent, left, right, p) && Greedy(n, parent, left, right, w, p);
      WeightsPositive(n, parent, left, right, w, left[p]);
      WeightsPositive(n, parent, left, right, w, right[p]);
    }
  }

  // ----- lengths for the roots

  function Times(w: seq<int>, l: seq<int>): (t: seq<int>)
    requires |w| == |l|
    ensures |t| == |w|
  {
    seq(|w|, p requires 0 <= p < |w| => w[p] * l[p])
  }

  function Units(d: int, l: seq<int>): (t: seq<int>)
    ensures |t| == |l|
  {
    seq(|l|, p requires 0 <= p < |l| => if l[p] <= d then Pow2(d - l[p]) else 0)
  }

  /** Kraft's inequality for the lengths of the roots. */
  ghost predicate Fits(parent: seq<int>, k: int, l: seq<int>, d: nat)
  {
    |l| == |parent| && (forall p :: IsRoot(parent, k, p) ==> 0 <= l[p] <= d) && Over(parent, k, Units(d, l)) <= Pow2(d)
  }

  lemma OverNonNegative(parent: seq<int>, k: int, x: seq<int>)
    requires |x| == |parent| && forall p :: IsRoot(parent, k, p) ==> x[p] >= 0
    ensures Over(parent, k, x) >= 0
  {
    SumNonNegative(RootsOnly(parent, k, x));
  }

  lemma ChildrenAreRoots(n: nat, parent: seq<int>, left: seq<int>, right: seq<int>, k: nat)
    requires Tree(n, parent, left, right) && 1 <= k < n
    ensures IsRoot(parent, k, left[k]) && IsRoot(parent, k, right[k]) && left[k] != right[k] && IsRoot(parent, k - 1, k)
  {
    assert TwoChildren(n, parent, left, right, k);
  }

  /** If no length is `d`, the lengths fit one level less deep. */
  lemma Shallower(parent: seq<int>, k: int, l: seq<int>, d: nat)
    requires d >= 1 && |l| == |parent| && forall p :: IsRoot(parent, k, p) ==> 0 <= l[p] < d
    ensures Over(parent, k, Units(d, l)) == 2 * Over(parent, k, Units(d - 1, l))
  {
    hide Sum;
    var s, t := RootsOnly(parent, k, Units(d, l)), RootsOnly(parent, k, Units(d - 1, l));
    forall p | 0 <= p < |s| ensures s[p] == 2 * t[p] {
      if IsRoot(parent, k, p) { assert Pow2(d - l[p]) == 2 * Pow2(d - 1 - l[p]); }
    }
    SumDouble(s, t);
  }

  /** A single deepest root can be shortened by one: the sum of the others is even. */
  lemma SingleDeepest(parent: seq<int>, k: int, l: seq<int>, d: nat, p: nat)
    requires d >= 1 && Fits(parent, k, l, d) && IsRoot(parent, k, p) && l[p] == d
    requires forall q :: IsRoot(parent, k, q) && q != p ==> l[q] < d
    ensures Fits(parent, k, l[p := d - 1], d - 1)
  {
    hide Over;
    var l' := l[p := d - 1];
    Shallower(parent, k, l', d);
    OverUpdate(parent, k, Units(d, l), p, 2);
    assert Pow2(1) == 2;
    assert Units(d, l') == Units(d, l)[p := 2];
    assert Units(d, l)[p] == Pow2(0) == 1;
    assert Pow2(d) == 2 * Pow2(d - 1);
  }

  /** Exchanging the lengths of two roots. */
  lemma ExchangeLengths(parent: seq<int>, k: int, w: seq<int>, l: seq<int>, d: nat, p: nat, q: nat)
    requires |w| == |parent| && Fits(parent, k, l, d) && IsRoot(parent, k, p) && IsRoot(parent, k, q)
    requires l[q] == d && w[p] <= w[q]
    ensures var l' := l[p := d][q := l[p]];
            Fits(parent, k, l', d) && Over(parent, k, Times(w, l')) <= Over(parent, k, Times(w, l))
  {
    hide Over, Pow2;
    var l1 := l[p := d];
    var l' := l1[q := l[p]];
    if p == q {
      assert l' == l;
      return;
    }
    var u := Units(d, l);
    OverUpdate(parent, k, u, p, u[q]);
    OverUpdate(parent, k, u[p := u[q]], q, u[p]);
    assert Units(d, l') == u[p := u[q]][q := u[p]];
    var c := Times(w, l);
    OverUpdate(parent, k, c, p, w[p] * d);
    OverUpdate(parent, k, c[p := w[p] * d], q, w[q] * l[p]);
    assert Times(w, l') == c[p := w[p] * d][q := w[q] * l[p]];
    Rearranged(w[p], w[q], l[p], d);
  }

  lemma Rearranged(v: int, w: int, l: int, d: int)
    requires v <= w && l <= d
    ensures v * d + w * l <= v * l + w * d
  {
    assert (w - v) * (d - l) >= 0;
  }

  /** Two deepest children are replaced by their parent, one level higher. */
  lemma MergeDeepest(n: nat, parent: seq<int>, left: seq<int>, right: seq<int>, w: seq<int>, k: nat, l: seq<int>, d: nat)
    requires GreedyTree(n, parent, left, right, w) && 1 <= k < n && Fits(parent, k, l, d)
    requires 0 <= left[k] < 2 * n && 0 <= right[k] < 2 * n && l[left[k]] == l[right[k]] == d
    ensures d >= 1 && Fits(parent, k - 1, l[k := d - 1], d)
    ensures Over(parent, k, Times(w, l)) == Over(parent, k - 1, Times(w, l[k := d - 1])) + w[k]
  {
    hide Over;
    ChildrenAreRoots(n, parent, left, right, k);
    var u := Units(d, l);
    assert u[left[k]] == Pow2(0) == u[right[k]];
    OverStep(n, parent, left, right, k, u, u[k := 0]);
    forall p | IsRoot(parent, k - 1, p) ensures p == k || IsRoot(parent, k, p) { }
    OverNonNegative(parent, k - 1, u[k := 0]);
    assert Pow2(0) == 1;
    var l' := l[k := d - 1];
    OverStep(n, parent, left, right, k, u, Units(d, l'));
    assert Units(d, l')[k] == Pow2(1) == 2;
    MergedCost(n, parent, left, right, w, k, l, d);
  }

  lemma MergedCost(n: nat, parent: seq<int>, left: seq<int>, right: seq<int>, w: seq<int>, k: nat, l: seq<int>, d: nat)
    requires GreedyTree(n, parent, left, right, w) && 1 <= k < n && |l| == 2 * n
    requires 0 <= left[k] < 2 * n && 0 <= right[k] < 2 * n && l[left[k]] == l[right[k]] == d
    ensures Over(parent, k, Times(w, l)) == Over(parent, k - 1, Times(w, l[k := d - 1])) + w[k]
  {
    hide Over;
    var c, c' := Times(w, l), Times(w, l[k := d - 1]);
    OverStep(n, parent, left, right, k, c, c');
    assert Greedy(n, parent, left, right, w, k);
    assert c'[k] == w[k] * (d - 1);
    assert w[left[k]] * d + w[right[k]] * d == w[k] * d;
  }

  /** Two different roots of length `d`: the children of `k` can have them, at no more cost. */
  lemma DeepestToChildren(n: nat, parent: seq<int>, left: seq<int>, right: seq<int>, w: seq<int>, k: nat,
                          l: seq<int>, d: nat, p: nat, q: nat) returns (m: seq<int>)
    requires GreedyTree(n, parent, left, right, w) && 1 <= k < n && Fits(parent, k, l, d)
    requires IsRoot(parent, k, p) && IsRoot(parent, k, q) && p != q && l[p] == l[q] == d && q != left[k]
    ensures 0 <= left[k] < 2 * n && 0 <= right[k] < 2 * n
    ensures Fits(parent, k, m, d) && m[left[k]] == m[right[k]] == d
    ensures Over(parent, k, Times(w, m)) <= Over(parent, k, Times(w, l))
  {
    hide Fits, Over;
    FitsLength(parent, k, l, d);
    ChildrenAreRoots(n, parent, left, right, k);
    assert Greedy(n, parent, left, right, w, k);
    ExchangeLengths(parent, k, w, l, d, left[k], p);
    m := l[left[k] := d][p := l[left[k]]];
    assert m[left[k]] == d && m[q] == d;
    var l1 := m;
    ExchangeLengths(parent, k, w, l1, d, right[k], q);
    m := l1[right[k] := d][q := l1[right[k]]];
  }

  lemma FitsLength(parent: seq<int>, k: int, l: seq<int>, d: nat)
    requires Fits(parent, k, l, d)
    ensures |l| == |parent|
  {
  }

  /** With at most one root of length `d`, the lengths are made to fit one level less deep. */
  lemma FewDeepest(n: nat, parent: seq<int>, left: seq<int>, right: seq<int>, w: seq<int>, k: nat, l: seq<int>, d: nat)
    returns (m: seq<int>)
    requires GreedyTree(n, parent, left, right, w) && 1 <= k < n && Fits(parent, k, l, d)
    requires forall p, q :: IsRoot(parent, k, p) && IsRoot(parent, k, q) && p != q && l[p] == l[q] == d ==> q == left[k]
    ensures d >= 1 && Fits(parent, k, m, d - 1) && Over(parent, k, Times(w, m)) <= Over(parent, k, Times(w, l))
  {
    hide Over, Pow2, Units, TwoChildren, Greedy;
    ChildrenAreRoots(n, parent, left, right, k);
    if p :| IsRoot(parent, k, p) && l[p] == d {
      SingleDeepest(parent, k, l, d, p);
      m := l[p := d - 1];
      OverUpdate(parent, k, Times(w, l), p, w[p] * (d - 1));
      WeightsPositive(n, parent, left, right, w, p);
      assert w[p] * (d - 1) <= w[p] * d;
      assert Times(w, m) == Times(w, l)[p := w[p] * (d - 1)];
    } else {
      m := l;
      Shallower(parent, k, l, d);
      assert Pow2(d) == 2 * Pow2(d - 1) by { PowStep(d - 1); }
    }
  }

  /** No lengths for the roots cost less than all the merges still to come. */
  lemma {:induction false} LowerBound(n: nat, parent: seq<int>, left: seq<int>, right: seq<int>, w: seq<int>, k: nat,
                                      l: seq<int>, d: nat)
    requires GreedyTree(n, parent, left, right, w) && k < n && Fits(parent, k, l, d)
    ensures Over(parent, k, Times(w, l)) >= Inner(w, k)
    decreases k, d
  {
    hide Over, TwoChildren, Greedy, Units, Pow2;
    if k == 0 {
      forall p | IsRoot(parent, k, p) ensures Times(w, l)[p] >= 0 {
        WeightsPositive(n, parent, left, right, w, p);
        assert w[p] * l[p] >= 0;
      }
      OverNonNegative(parent, k, Times(w, l));
    } else {
      ChildrenAreRoots(n, parent, left, right, k);
      if p, q :| IsRoot(parent, k, p) && IsRoot(parent, k, q) && p != q && l[p] == l[q] == d && q != left[k] {
        var m := DeepestToChildren(n, parent, left, right, w, k, l, d, p, q);
        MergeDeepest(n, parent, left, right, w, k, m, d);
        LowerBound(n, parent, left, right, w, k - 1, m[k := d - 1], d);
      } else {
        var m := FewDeepest(n, parent, left, right, w, k, l, d);
        LowerBound(n, parent, left, right, w, k, m, d - 1);
      }
    }
  }

  // ----- what the depths of the tree cost

  /** The depths of the roots cost exactly the merges still to come. */
  lemma {:induction false} DepthsCost(n: nat, parent: seq<int>, left: seq<int>, right: seq<int>, w: seq<int>, k: nat, l: seq<int>)
    requires GreedyTree(n, parent, left, right, w) && k < n
    requires |l| == 2 * n && l[0] == 0 && forall p :: 1 <= p < 2 * n ==> l[p] == Depth(parent, p)
    ensures Over(parent, k, Times(w, l)) == Inner(w, k)
  {
    hide Over;
    if k == 0 {
      OnlyTop(n, parent, left, right, Times(w, l));
    } else {
      DepthsCost(n, parent, left, right, w, k - 1, l);
      OverStep(n, parent, left, right, k, Times(w, l), Times(w, l));
      assert TwoChildren(n, parent, left, right, k) && Greedy(n, parent, left, right, w, k);
      assert l[left[k]] == l[k] + 1 == l[right[k]];
      Distribute(w[left[k]], w[right[k]], l[k]);
    }
  }

  lemma Distribute(v: int, w: int, l: int)
    ensures v * (l + 1) + w * (l + 1) == (v + w) * l + (v + w)
  {
  }

  lemma OnlyTop(n: nat, parent: seq<int>, left: seq<int>, right: seq<int>, x: seq<int>)
    requires Tree(n, parent, left, right) && |x| == 2 * n
    ensures Over(parent, 0, x) == x[1]
  {
    assert Sum([]) == 0;
    hide Sum;
    var t := RootsOnly(parent, 0, x);
    SumUpdate(t, 1, 0);
    SumBehindZeros(t[1 := 0], 2 * n);
    assert t[1 := 0][2 * n..] == [];
  }

  /** In front of the first merge the roots are the leaves. */
  lemma OverLeaves(n: nat, parent: seq<int>, left: seq<int>, right: seq<int>, x: seq<int>)
    requires Tree(n, parent, left, right) && |x| == 2 * n
    ensures Over(parent, n - 1, x) == Sum(x[n..])
  {
    hide Sum;
    var t := RootsOnly(parent, n - 1, x);
    SumBehindZeros(t, n);
    assert t[n..] == x[n..];
  }

  // ----- optimal code lengths

  /** Lengths up to `d` that satisfy Kraft's inequality. */
  predicate Feasible(l: seq<nat>, d: nat)
  {
    (forall i :: 0 <= i < |l| ==> l[i] <= d) && Kraft(l, d, |l|) <= Pow2(d)
  }

  /** The number of bits for items that occur `weights[i]` times. */
  function Cost(weights: seq<int>, l: seq<nat>): int
    requires |weights| == |l|
  {
    Sum(Times(weights, l))
  }

  /** No other code lengths need fewer bits. */
  ghost predicate Optimal(weights: seq<int>, cl: seq<nat>)
    requires |weights| == |cl|
  {
    forall other, d :: |other| == |cl| && Feasible(other, d) ==> Cost(weights, cl) <= Cost(weights, other)
  }

  lemma {:induction false} KraftIsSum(l: seq<nat>, d: nat, m: nat)
    requires m <= |l| && forall i :: 0 <= i < |l| ==> l[i] <= d
    ensures Kraft(l, d, m) == Sum(Units(d, l)[..m])
  {
    hide Pow2;
    if m > 0 {
      KraftIsSum(l, d, m - 1);
      assert Units(d, l)[..m][..m - 1] == Units(d, l)[..m - 1];
    }
  }

  /** The leaf depths of the tree are code lengths of least cost. */
  lemma DepthsOptimal(n: nat, parent: seq<int>, left: seq<int>, right: seq<int>, w: seq<int>, cl: seq<nat>)
    requires GreedyTree(n, parent, left, right, w) && Depths(n, parent, cl)
    ensures Optimal(w[n..], cl)
  {
    hide Feasible;
    forall other: seq<nat>, d: nat | |other| == |cl| && Feasible(other, d) ensures Cost(w[n..], cl) <= Cost(w[n..], other) {
      CostOfDepths(n, parent, left, right, w, cl);
      CostOfOther(n, parent, left, right, w, other, d);
    }
  }

  lemma CostOfDepths(n: nat, parent: seq<int>, left: seq<int>, right: seq<int>, w: seq<int>, cl: seq<nat>)
    requires GreedyTree(n, parent, left, right, w) && Depths(n, parent, cl)
    ensures Cost(w[n..], cl) == Inner(w, n - 1)
  {
    hide Sum, Over, TwoChildren, Greedy;
    var l: seq<int> := seq(2 * n, p requires 0 <= p < 2 * n => Depth(parent, p));
    DepthsCost(n, parent, left, right, w, n - 1, l);
    OverLeaves(n, parent, left, right, Times(w, l));
    assert Times(w, l)[n..] == Times(w[n..], cl);
  }

  lemma CostOfOther(n: nat, parent: seq<int>, left: seq<int>, right: seq<int>, w: seq<int>, other: seq<nat>, d: nat)
    requires GreedyTree(n, parent, left, right, w) && |other| == n && Feasible(other, d)
    ensures Cost(w[n..], other) >= Inner(w, n - 1)
  {
    hide Sum, Over, TwoChildren, Greedy, Pow2;
    var l: seq<int> := seq(n, _ => 0) + other;
    OverLeaves(n, parent, left, right, Units(d, l));
    KraftIsSum(other, d, n);
    assert Units(d, l)[n..] == Units(d, other) == Units(d, other)[..n];
    LowerBound(n, parent, left, right, w, n - 1, l, d);
    OverLeaves(n, parent, left, right, Times(w, l));
    assert Times(w, l)[n..] == Times(w[n..], other);
  }

  // ----- how long a code can get

  function Fib(i: nat): nat
  {
    if i < 2 then i else Fib(i - 1) + Fib(i - 2)
  }

  /** A child of `k` weighs at most as much as any node that is not made before `k` and is not merged
      before: `s` is a root in front of `k`, or made later. */
  lemma {:induction false} ChildIsLight(n: nat, parent: seq<int>, left: seq<int>, right: seq<int>, w: seq<int>, k: nat, x: nat, s: nat)
    requires GreedyTree(n, parent, left, right, w) && 1 <= k < n && x < 2 * n && (x == left[k] || x == right[k])
    requires 1 <= s < k || (IsRoot(parent, k, s) && s != left[k] && s != right[k])
    ensures w[x] <= w[s]
    decreases 2 * n - s
  {
    assert TwoChildren(n, parent, left, right, k) && Greedy(n, parent, left, right, w, k);
    if s < k {
      assert TwoChildren(n, parent, left, right, s) && Greedy(n, parent, left, right, w, s);
      var c := left[s];
      WeightsPositive(n, parent, left, right, w, left[s]);
      WeightsPositive(n, parent, left, right, w, right[s]);
      if c == k {
        WeightsPositive(n, parent, left, right, w, left[k]);
        WeightsPositive(n, parent, left, right, w, right[k]);
      } else {
        ChildIsLight(n, parent, left, right, w, k, x, c);
      }
    }
  }

  /** Three generations: the weights grow at least like the Fibonacci numbers. */
  lemma ThreeGenerations(n: nat, parent: seq<int>, left: seq<int>, right: seq<int>, w: seq<int>, x: nat)
    requires GreedyTree(n, parent, left, right, w) && 2 <= x < 2 * n && parent[x] >= 2
    ensures 1 <= parent[parent[x]] < n && w[parent[parent[x]]] >= w[parent[x]] + w[x]
  {
    var k := parent[x];
    var g := parent[k];
    assert TwoChildren(n, parent, left, right, k) && TwoChildren(n, parent, left, right, g);
    assert Greedy(n, parent, left, right, w, g);
    var s := if k == left[g] then right[g] else left[g];
    ChildIsLight(n, parent, left, right, w, k, x, s);
  }

  lemma {:induction false} Climb(n: nat, parent: seq<int>, left: seq<int>, right: seq<int>, w: seq<int>, x: nat, i: nat)
    requires GreedyTree(n, parent, left, right, w) && 2 <= x < 2 * n
    requires 1 <= parent[x] < n && w[x] >= Fib(i) && w[parent[x]] >= Fib(i + 1)
    ensures w[1] >= Fib(i + Depth(parent, x))
  {
    hide TwoChildren, Greedy;
    if parent[x] == 1 {
      assert Depth(parent, 1) == 0;
    } else {
      ThreeGenerations(n, parent, left, right, w, x);
      Climb(n, parent, left, right, w, parent[x], i + 1);
    }
  }

  /** A leaf of depth `L` needs a total weight of at least the Fibonacci number of `L + 2`. */
  lemma DeepNeedsWeight(n: nat, parent: seq<int>, left: seq<int>, right: seq<int>, w: seq<int>, p: nat)
    requires GreedyTree(n, parent, left, right, w) && n <= p < 2 * n
    ensures Sum(w[n..]) >= Fib(Depth(parent, p) + 2)
  {
    hide Sum;
    var k := parent[p];
    assert TwoChildren(n, parent, left, right, k) && Greedy(n, parent, left, right, w, k);
    WeightsPositive(n, parent, left, right, w, left[k]);
    WeightsPositive(n, parent, left, right, w, right[k]);
    assert Fib(3) == 2;
    Climb(n, parent, left, right, w, p, 2);
    WholeWeight(n, parent, left, right, w, n - 1);
    OverLeaves(n, parent, left, right, w);
  }

  /** The weight of the top is that of all roots together, at any time. */
  lemma {:induction false} WholeWeight(n: nat, parent: seq<int>, left: seq<int>, right: seq<int>, w: seq<int>, k: nat)
    requires GreedyTree(n, parent, left, right, w) && k < n
    ensures Over(parent, k, w) == w[1]
  {
    hide Over;
    if k == 0 {
      OnlyTop(n, parent, left, right, w);
    } else {
      WholeWeight(n, parent, left, right, w, k - 1);
      OverStep(n, parent, left, right, k, w, w);
      assert Greedy(n, parent, left, right, w, k);
    }
  }

  lemma {:induction false} FibGrows(i: nat, j: nat)
    requires i <= j
    ensures Fib(i) <= Fib(j)
  {
    if i < j { FibGrows(i, j - 1); }
  }

  lemma FibBelowCodeLimit()
    ensures Fib(34) == 5702887
  {
    assert Fib(10) == 55 && Fib(11) == 89;
    assert Fib(20) == 6765 && Fib(21) == 10946;
    assert Fib(28) == 317811 && Fib(29) == 514229;
  }

  // ----- prefix codes

  predicate Apart(u: seq<bool>, v: seq<bool>)
  {
    !(u <= v) && !(v <= u)
  }

  /** No word is the beginning of another. */
  predicate PrefixCode(words: seq<seq<bool>>)
  {
    words == [] || ((forall v :: v in words[1..] ==> Apart(words[0], v)) && PrefixCode(words[1..]))
  }

  /** The words that begin with `b`, without it. */
  function Branch(words: seq<seq<bool>>, b: bool): seq<seq<bool>>
  {
    if words == [] then []
    else (if words[0] != [] && words[0][0] == b then [words[0][1..]] else []) + Branch(words[1..], b)
  }

  function Width(words: seq<seq<bool>>, d: nat): nat
    requires forall v :: v in words ==> |v| <= d
  {
    if words == [] then 0 else Pow2(d - |words[0]|) + Width(words[1..], d)
  }

  lemma {:induction false} BranchHas(words: seq<seq<bool>>, b: bool, v: seq<bool>)
    requires v in Branch(words, b)
    ensures [b] + v in words
  {
    if words[0] != [] && words[0][0] == b && v == words[0][1..] {
      assert [b] + v == words[0];
    } else {
      BranchHas(words[1..], b, v);
    }
  }

  lemma {:induction false} BranchApart(words: seq<seq<bool>>, b: bool)
    requires PrefixCode(words)
    ensures PrefixCode(Branch(words, b))
  {
    if words != [] {
      BranchApart(words[1..], b);
      var rest := Branch(words[1..], b);
      if words[0] != [] && words[0][0] == b {
        var u := words[0][1..];
        forall v | v in rest ensures Apart(u, v) {
          BranchHas(words[1..], b, v);
          assert Apart([b] + u, [b] + v) && words[0] == [b] + u;
        }
        assert Branch(words, b) == [u] + rest && Branch(words, b)[1..] == rest;
      } else {
        assert Branch(words, b) == rest;
      }
    }
  }

  lemma {:induction false} WidthSplits(words: seq<seq<bool>>, d: nat)
    requires d >= 1 && forall v :: v in words ==> 1 <= |v| <= d
    ensures forall b, v :: v in Branch(words, b) ==> |v| <= d - 1
    ensures Width(words, d) == Width(Branch(words, false), d - 1) + Width(Branch(words, true), d - 1)
  {
    forall b, v | v in Branch(words, b) ensures |v| <= d - 1 { BranchHas(words, b, v); }
    if words != [] {
      WidthSplits(words[1..], d);
      var b, u := words[0][0], words[0][1..];
      assert Branch(words, b) == [u] + Branch(words[1..], b) && Branch(words, b)[1..] == Branch(words[1..], b);
      assert Branch(words, !b) == Branch(words[1..], !b);
      assert d - |words[0]| == d - 1 - |u|;
    }
  }

  /** Kraft's inequality. */
  lemma {:induction false} KraftInequality(words: seq<seq<bool>>, d: nat)
    requires PrefixCode(words) && forall v :: v in words ==> |v| <= d
    ensures Width(words, d) <= Pow2(d)
    decreases d
  {
    assert words != [] ==> words[0] in words;
    if [] in words {
      OnlyTheEmptyWord(words);
    } else if d > 0 {
      WidthSplits(words, d);
      BranchApart(words, false);
      BranchApart(words, true);
      KraftInequality(Branch(words, false), d - 1);
      KraftInequality(Branch(words, true), d - 1);
    }
  }

  lemma {:induction false} OnlyTheEmptyWord(words: seq<seq<bool>>)
    requires PrefixCode(words) && [] in words
    ensures words == [[]]
  {
    EmptyIsPrefix(words[0]);
    if |words| > 1 {
      assert words[1] in words[1..];
      EmptyIsPrefix(words[1]);
    }
  }

  lemma EmptyIsPrefix(v: seq<bool>)
    ensures !Apart(v, []) && !Apart([], v)
  {
  }

  function LengthsOf(words: seq<seq<bool>>): (l: seq<nat>)
    ensures |l| == |words|
  {
    seq(|words|, i requires 0 <= i < |words| => |words[i]|)
  }

  lemma {:induction false} WidthIsKraft(words: seq<seq<bool>>, d: nat, m: nat)
    requires m <= |words| && forall v :: v in words ==> |v| <= d
    ensures Width(words, d) == Kraft(LengthsOf(words), d, m) + Width(words[m..], d)
  {
    hide Pow2;
    if m > 0 {
      WidthIsKraft(words, d, m - 1);
      assert words[m - 1..][1..] == words[m..];
    } else {
      assert words[0..] == words;
    }
  }

  lemma {:induction false} Longest(words: seq<seq<bool>>) returns (d: nat)
    ensures forall v :: v in words ==> |v| <= d
  {
    d := 0;
    if words != [] {
      var e := Longest(words[1..]);
      d := if |words[0]| > e then |words[0]| else e;
      forall v | v in words ensures |v| <= d { assert v == words[0] || v in words[1..]; }
    }
  }

  /** No prefix code for the items needs fewer bits than optimal code lengths. */
  lemma OptimalAmongPrefixCodes(weights: seq<int>, cl: seq<nat>, words: seq<seq<bool>>)
    requires |weights| == |cl| == |words| && Optimal(weights, cl) && PrefixCode(words)
    ensures Cost(weights, cl) <= Cost(weights, LengthsOf(words))
  {
    hide Cost, Pow2, Kraft;
    var d := Longest(words);
    KraftInequality(words, d);
    WidthIsKraft(words, d, |words|);
    assert Feasible(LengthsOf(words), d);
  }
}
