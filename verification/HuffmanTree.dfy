/** The trees that compute_code_lengths (utils/cwb-huffcode.c) builds with parent pointers: the depths
    of their leaves satisfy Kraft's equality. */
module HuffmanTree {
  import opened BitIO
  import opened Huffman
  import opened HuffmanCodes

  // ----- trees given by parent pointers

  /** Node 1 is the root, `n .. 2n - 1` are the leaves; `left` and `right` list the two children
      of each inner node. */
  ghost predicate Tree(n: nat, parent: seq<int>, left: seq<int>, right: seq<int>)
  {
    n >= 2 && |parent| == 2 * n && |left| == |right| == n && parent[1] == 0 &&
    (forall p :: 2 <= p < 2 * n ==> 1 <= parent[p] < n && parent[p] < p) &&
    forall k :: 1 <= k < n ==> TwoChildren(n, parent, left, right, k)
  }

  ghost predicate TwoChildren(n: nat, parent: seq<int>, left: seq<int>, right: seq<int>, k: nat)
    requires |parent| == 2 * n && |left| == |right| == n && k < n
  {
    k < left[k] < 2 * n && k < right[k] < 2 * n && left[k] != right[k] &&
    parent[left[k]] == k && parent[right[k]] == k &&
    forall p :: k < p < 2 * n && parent[p] == k ==> p == left[k] || p == right[k]
  }

  function Depth(parent: seq<int>, p: nat): nat
    requires forall q :: 2 <= q < |parent| ==> 1 <= parent[q] < q
    requires p < |parent|
  {
    if p <= 1 then 0 else Depth(parent, parent[p]) + 1
  }

  /** Weight of the nodes from `lo` on whose parent is at most `k`; `d` bounds the depths. */
  ghost function Frontier(parent: seq<int>, d: nat, lo: nat, k: int): nat
    requires forall q :: 2 <= q < |parent| ==> 1 <= parent[q] < q
    requires forall q :: 0 <= q < |parent| ==> Depth(parent, q) <= d
    decreases |parent| - lo
  {
    if lo >= |parent| then 0
    else (if parent[lo] <= k then Pow2(d - Depth(parent, lo)) else 0) + Frontier(parent, d, lo + 1, k)
  }

  ghost predicate Bounded(parent: seq<int>, d: nat)
  {
    (forall q :: 2 <= q < |parent| ==> 1 <= parent[q] < q) &&
    forall q :: 0 <= q < |parent| ==> Depth(parent, q) <= d
  }

  lemma {:induction false} ChildrenEnter(n: nat, parent: seq<int>, left: seq<int>, right: seq<int>, d: nat, lo: nat, k: nat)
    requires Tree(n, parent, left, right) && Bounded(parent, d) && 1 <= k < n && k < lo <= 2 * n
    requires TwoChildren(n, parent, left, right, k)
    ensures var w := Pow2(d - Depth(parent, left[k]));
            Frontier(parent, d, lo, k) ==
            Frontier(parent, d, lo, k - 1) + (if lo <= left[k] then w else 0) + (if lo <= right[k] then w else 0)
    decreases 2 * n - lo
  {
    hide Pow2;
    assert TwoChildren(n, parent, left, right, k);
    assert Depth(parent, left[k]) == Depth(parent, k) + 1 == Depth(parent, right[k]);
    if lo < 2 * n { ChildrenEnter(n, parent, left, right, d, lo + 1, k); }
  }

  /** Replacing an inner node by its two children keeps the weight. */
  lemma FrontierStep(n: nat, parent: seq<int>, left: seq<int>, right: seq<int>, d: nat, k: nat)
    requires Tree(n, parent, left, right) && Bounded(parent, d) && 1 <= k < n
    ensures Frontier(parent, d, k + 1, k) == Frontier(parent, d, k, k - 1)
  {
    hide Pow2;
    assert TwoChildren(n, parent, left, right, k);
    ChildrenEnter(n, parent, left, right, d, k + 1, k);
    assert Depth(parent, left[k]) == Depth(parent, k) + 1;
    PowStep(d - Depth(parent, left[k]));
    assert parent[k] <= k - 1;
  }

  lemma {:induction false} FrontierConstant(n: nat, parent: seq<int>, left: seq<int>, right: seq<int>, d: nat, k: nat)
    requires Tree(n, parent, left, right) && Bounded(parent, d) && k < n
    ensures Frontier(parent, d, k + 1, k) == Pow2(d)
  {
    hide Pow2, Frontier;
    if k == 0 {
      RootAlone(n, parent, left, right, d, 1);
    } else {
      FrontierConstant(n, parent, left, right, d, k - 1);
      FrontierStep(n, parent, left, right, d, k);
    }
  }

  lemma {:induction false} RootAlone(n: nat, parent: seq<int>, left: seq<int>, right: seq<int>, d: nat, lo: nat)
    requires Tree(n, parent, left, right) && Bounded(parent, d) && 1 <= lo <= 2 * n
    ensures Frontier(parent, d, lo, 0) == if lo == 1 then Pow2(d) else 0
    decreases 2 * n - lo
  {
    hide Pow2;
    if lo < 2 * n { RootAlone(n, parent, left, right, d, lo + 1); }
  }

  // ----- Kraft's equality for the depths of the leaves

  ghost predicate Depths(n: nat, parent: seq<int>, cl: seq<nat>)
  {
    |parent| == 2 * n && |cl| == n && (forall q :: 2 <= q < |parent| ==> 1 <= parent[q] < q) &&
    forall i :: 0 <= i < n ==> cl[i] == Depth(parent, n + i)
  }

  function Kraft(cl: seq<nat>, d: nat, n: nat): nat
    requires n <= |cl| && forall i :: 0 <= i < |cl| ==> cl[i] <= d
  {
    if n == 0 then 0 else Kraft(cl, d, n - 1) + Pow2(d - cl[n - 1])
  }

  lemma {:induction false} LeavesAreFrontier(n: nat, parent: seq<int>, left: seq<int>, right: seq<int>, d: nat, cl: seq<nat>, m: nat)
    requires Tree(n, parent, left, right) && Bounded(parent, d) && Depths(n, parent, cl) && m <= n
    requires forall i :: 0 <= i < |cl| ==> cl[i] <= d
    ensures Frontier(parent, d, n, n - 1) == Kraft(cl, d, m) + Frontier(parent, d, n + m, n - 1)
  {
    hide Pow2;
    if m > 0 {
      LeavesAreFrontier(n, parent, left, right, d, cl, m - 1);
      assert parent[n + m - 1] <= n - 1;
    }
  }

  /** `Taken`, for the first `n` items only. */
  function TakenBy(cl: seq<nat>, l: nat, n: nat): nat
    requires n <= |cl|
  {
    if l <= 1 then 0 else 2 * TakenBy(cl, l - 1, n) + Count(cl, l - 1, n)
  }

  lemma {:induction false} TakenByNone(cl: seq<nat>, l: nat)
    ensures TakenBy(cl, l, 0) == 0
  {
    if l > 1 { TakenByNone(cl, l - 1); }
  }

  lemma {:induction false} TakenByOne(cl: seq<nat>, l: nat, n: nat)
    requires 0 < n <= |cl| && cl[n - 1] >= 1
    ensures TakenBy(cl, l, n) == TakenBy(cl, l, n - 1) + if cl[n - 1] < l then Pow2(l - 1 - cl[n - 1]) else 0
  {
    if l > 1 { TakenByOne(cl, l - 1, n); }
  }

  lemma {:induction false} TakenIsKraft(cl: seq<nat>, d: nat, n: nat)
    requires n <= |cl| && forall i :: 0 <= i < |cl| ==> 1 <= cl[i] <= d
    ensures TakenBy(cl, d + 1, n) == Kraft(cl, d, n)
  {
    hide Pow2, TakenBy;
    if n == 0 {
      TakenByNone(cl, d + 1);
    } else {
      TakenIsKraft(cl, d, n - 1);
      TakenByOne(cl, d + 1, n);
    }
  }

  lemma {:induction false} TakenByAll(cl: seq<nat>, l: nat)
    ensures TakenBy(cl, l, |cl|) == Taken(cl, l)
  {
    if l > 1 { TakenByAll(cl, l - 1); }
  }

  lemma {:induction false} InnerDepth(parent: seq<int>, d: nat, n: nat, left: seq<int>, right: seq<int>, p: nat)
    requires Tree(n, parent, left, right) && 1 <= p < 2 * n
    requires forall q :: n <= q < 2 * n ==> Depth(parent, q) <= d
    ensures Depth(parent, p) <= d
    decreases 2 * n - p
  {
    if p < n {
      assert TwoChildren(n, parent, left, right, p);
      InnerDepth(parent, d, n, left, right, left[p]);
    }
  }

  /** The depths of the leaves of a full binary tree satisfy Kraft's equality. */
  lemma LeafDepthsComplete(n: nat, parent: seq<int>, left: seq<int>, right: seq<int>, cl: seq<nat>, d: nat)
    requires Tree(n, parent, left, right) && Depths(n, parent, cl)
    requires forall i :: 0 <= i < n ==> cl[i] <= d
    ensures Lengths(cl, d) && Complete(cl, d)
  {
    hide Pow2, Frontier, Taken, TakenBy, Kraft;
    forall q | n <= q < 2 * n ensures 1 <= Depth(parent, q) <= d { assert cl[q - n] == Depth(parent, q); }
    forall q | 0 <= q < 2 * n ensures Depth(parent, q) <= d {
      if q > 0 { InnerDepth(parent, d, n, left, right, q); }
    }
    assert cl[0] == Depth(parent, n);
    forall i | 0 <= i < |cl| ensures 1 <= cl[i] { assert cl[i] == Depth(parent, n + i); }
    FrontierConstant(n, parent, left, right, d, n - 1);
    LeavesAreFrontier(n, parent, left, right, d, cl, n);
    NoFrontier(parent, d, 2 * n);
    TakenIsKraft(cl, d, n);
    TakenByAll(cl, d + 1);
  }

  lemma NoFrontier(parent: seq<int>, d: nat, lo: nat)
    requires Bounded(parent, d) && lo >= |parent|
    ensures Frontier(parent, d, lo, lo / 2 - 1) == 0
  {
  }
}
