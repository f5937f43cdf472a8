/** The first three phases of compute_code_lengths (utils/cwb-huffcode.c): one array serves as heap
    of tree roots, as table of frequencies and parent pointers, and as table of depths. */
module HuffmanLengths {
  import opened BitIO
  import opened Huffman
  import opened HuffmanCodes
  import opened HuffmanTree
  import opened HuffmanOptimal

  // ----- the heap

  /** The first `h` cells point to different nodes at or above `lo`. */
  predicate Roots(heap: seq<int>, h: nat, lo: int)
  {
    h <= |heap| && 0 <= lo && (forall i :: 0 <= i < h ==> lo <= heap[i] < |heap|) &&
    forall i, j :: 0 <= i < j < h ==> heap[i] != heap[j]
  }

  ghost predicate SameRoots(a: seq<int>, b: seq<int>, h: nat)
    requires h <= |a| == |b|
  {
    (forall x :: x in a[..h] <==> x in b[..h]) && a[h..] == b[h..]
  }

  method Swap(heap: array<int>, h: nat, i: nat, j: nat, lo: int)
    requires i < h && j < h && h <= heap.Length && Roots(heap[..], h, lo)
    modifies heap
    ensures Roots(heap[..], h, lo) && SameRoots(heap[..], old(heap[..]), h)
    ensures heap[..] == old(heap[..])[i := old(heap[j])][j := old(heap[i])]
  {
    ghost var a := heap[..];
    heap[i], heap[j] := heap[j], heap[i];
    ghost var b := heap[..];
    assert b[..h] == a[..h][i := a[j]][j := a[i]];
    forall x ensures x in a[..h] <==> x in b[..h] {
      if x in a[..h] {
        var k :| 0 <= k < h && a[k] == x;
        assert b[if k == i then j else if k == j then i else k] == x;
      }
      if x in b[..h] {
        var k :| 0 <= k < h && b[k] == x;
        assert a[if k == i then j else if k == j then i else k] == x;
      }
    }
  }

  lemma RootsTrans(a: seq<int>, b: seq<int>, c: seq<int>, h: nat)
    requires h <= |a| == |b| == |c| && SameRoots(a, b, h) && SameRoots(b, c, h)
    ensures SameRoots(a, c, h)
  {
  }

  /** The weight of heap node `p`, counted from 1: the cell its pointer points to. */
  function W(a: seq<int>, p: int): int
  {
    if 1 <= p <= |a| && 0 <= a[p - 1] < |a| then a[a[p - 1]] else 0
  }

  /** A node is not heavier than its children. */
  predicate NodeOk(a: seq<int>, h: int, p: int)
  {
    (2 * p <= h ==> W(a, p) <= W(a, 2 * p)) && (2 * p + 1 <= h ==> W(a, p) <= W(a, 2 * p + 1))
  }

  /** The heap order, from node `from` on. */
  ghost predicate Ordered(a: seq<int>, h: int, from: int)
  {
    forall p :: from <= p ==> NodeOk(a, h, p)
  }

  lemma {:induction false} TopIsLeast(a: seq<int>, h: int, p: int)
    requires Ordered(a, h, 1) && 1 <= p <= h
    ensures W(a, 1) <= W(a, p)
  {
    if p > 1 {
      TopIsLeast(a, h, p / 2);
      assert NodeOk(a, h, p / 2);
    }
  }

  lemma SwapWeights(a: seq<int>, h: nat, i: nat, j: nat, lo: int, p: int)
    requires i < h && j < h && h <= lo && Roots(a, h, lo) && 1 <= p <= h
    ensures W(a[i := a[j]][j := a[i]], p) == W(a, if p == i + 1 then j + 1 else if p == j + 1 then i + 1 else p)
  {
  }

  /** While a pointer is sifted down, only its node may be too heavy; `above` is the node it came
      from, 0 at the start. */
  ghost predicate Sifting(a: seq<int>, h: int, start: int, above: int, node: int)
  {
    (forall p :: start <= p && p != node ==> NodeOk(a, h, p)) &&
    (if above == 0 then node == start
     else
       start <= above && (node == 2 * above || node == 2 * above + 1) &&
       (2 * node <= h ==> W(a, above) <= W(a, 2 * node)) && (2 * node + 1 <= h ==> W(a, above) <= W(a, 2 * node + 1)))
  }

  /** The weights of `b` are those of `a` with nodes `x` and `y` exchanged. */
  ghost predicate Exchanged(a: seq<int>, b: seq<int>, h: int, x: int, y: int)
  {
    W(b, x) == W(a, y) && W(b, y) == W(a, x) && forall p :: 1 <= p <= h && p != x && p != y ==> W(b, p) == W(a, p)
  }

  lemma SwapExchanges(a: seq<int>, h: nat, lo: int, x: nat, y: nat)
    requires h <= lo && Roots(a, h, lo) && 1 <= x <= h && 1 <= y <= h
    ensures Exchanged(a, a[x - 1 := a[y - 1]][y - 1 := a[x - 1]], h, x, y)
  {
    assert h <= |a|;
    hide W, Roots;
    var b := a[x - 1 := a[y - 1]][y - 1 := a[x - 1]];
    forall p | 1 <= p <= h ensures W(b, p) == W(a, if p == x then y else if p == y then x else p) {
      SwapWeights(a, h, x - 1, y - 1, lo, p);
    }
    assert W(b, x) == W(a, y) && W(b, y) == W(a, x);
  }

  lemma SiftedNode(a: seq<int>, b: seq<int>, h: nat, start: nat, above: nat, node: nat, child: nat, p: nat)
    requires 1 <= start <= node && Sifting(a, h, start, above, node) && Exchanged(a, b, h, child, node)
    requires child <= h && (child == 2 * node || child == 2 * node + 1) && W(a, child) < W(a, node)
    requires 2 * node <= h ==> W(a, child) <= W(a, 2 * node)
    requires 2 * node + 1 <= h ==> W(a, child) <= W(a, 2 * node + 1)
    requires start <= p && p != child
    ensures NodeOk(b, h, p)
  {
    hide W;
    if p == node {
    } else {
      assert NodeOk(a, h, p);
      if p != above {
        assert 2 * p != node && 2 * p + 1 != node && 2 * p != child && 2 * p + 1 != child;
      }
    }
  }

  lemma SiftStep(a: seq<int>, b: seq<int>, h: nat, start: nat, above: nat, node: nat, child: nat)
    requires 1 <= start <= node && Sifting(a, h, start, above, node) && Exchanged(a, b, h, child, node)
    requires child <= h && (child == 2 * node || child == 2 * node + 1) && W(a, child) < W(a, node)
    requires 2 * node <= h ==> W(a, child) <= W(a, 2 * node)
    requires 2 * node + 1 <= h ==> W(a, child) <= W(a, 2 * node + 1)
    ensures Sifting(b, h, start, node, child)
  {
    hide W;
    forall p | start <= p && p != child ensures NodeOk(b, h, p) {
      SiftedNode(a, b, h, start, above, node, child, p);
    }
    hide NodeOk;
    assert NodeOk(a, h, child);
    SiftedChildren(a, b, h, node, child);
  }

  lemma SiftedChildren(a: seq<int>, b: seq<int>, h: nat, node: nat, child: nat)
    requires 1 <= node < child <= h && Exchanged(a, b, h, child, node) && NodeOk(a, h, child)
    ensures 2 * child <= h ==> W(b, node) <= W(b, 2 * child)
    ensures 2 * child + 1 <= h ==> W(b, node) <= W(b, 2 * child + 1)
  {
    hide W;
  }

  /** sift: moves a pointer down in the heap, so that the order holds from one node further up. */
  method Sift(heap: array<int>, h: nat, start: nat, lo: int)
    requires 1 <= start && h <= heap.Length && h <= lo && Roots(heap[..], h, lo)
    requires Ordered(heap[..], h, start + 1)
    modifies heap
    ensures Roots(heap[..], h, lo) && SameRoots(heap[..], old(heap[..]), h)
    ensures Ordered(heap[..], h, start)
  {
    hide SameRoots, Sifting, Ordered, W, NodeOk, Roots, Exchanged;
    var node := start;
    var child := node * 2;
    ghost var above := 0;
    SameSelf(heap[..], h);
    StartSifting(heap[..], h, start);
    while child <= h
      invariant start <= node && child == 2 * node && above >= 0
      invariant Roots(heap[..], h, lo) && SameRoots(heap[..], old(heap[..]), h) && Sifting(heap[..], h, start, above, node)
      decreases h + 1 - child
    {
      ghost var a := heap[..];
      Cell(a, h, lo, child);
      Cell(a, h, lo, node);
      if child < h { Cell(a, h, lo, child + 1); }
      if child < h && heap[heap[child]] < heap[heap[child - 1]] {
        child := child + 1;
      }
      if heap[heap[node - 1]] > heap[heap[child - 1]] {
        SwapExchanges(a, h, lo, child, node);
        Swap(heap, h, child - 1, node - 1, lo);
        SiftStep(a, heap[..], h, start, above, node, child);
        RootsTrans(heap[..], a, old(heap[..]), h);
        above := node;
        node := child;
        child := node * 2;
      } else {
        NotHeavier(a, h, node, child);
        break;
      }
    }
    if child > h { NoChildren(heap[..], h, node); }
    EndSifting(heap[..], h, start, above, node);
  }

  lemma Cell(a: seq<int>, h: nat, lo: int, p: int)
    requires h <= lo && Roots(a, h, lo) && 1 <= p <= h
    ensures lo <= a[p - 1] < |a| && W(a, p) == a[a[p - 1]]
  {
  }

  lemma NotHeavier(a: seq<int>, h: int, node: int, child: int)
    requires 2 * node <= h && (child == 2 * node || child == 2 * node + 1) && W(a, node) <= W(a, child)
    requires W(a, child) <= W(a, 2 * node) && (2 * node + 1 <= h ==> W(a, child) <= W(a, 2 * node + 1))
    ensures NodeOk(a, h, node)
  {
  }

  lemma NoChildren(a: seq<int>, h: int, node: int)
    requires 2 * node > h
    ensures NodeOk(a, h, node)
  {
  }

  lemma StartSifting(a: seq<int>, h: int, start: int)
    requires Ordered(a, h, start + 1)
    ensures Sifting(a, h, start, 0, start)
  {
    hide NodeOk;
  }

  lemma EndSifting(a: seq<int>, h: int, start: int, above: int, node: int)
    requires Sifting(a, h, start, above, node) && NodeOk(a, h, node)
    ensures Ordered(a, h, start)
  {
    hide NodeOk;
  }

  lemma SameSelf(a: seq<int>, h: nat)
    requires h <= |a|
    ensures SameRoots(a, a, h)
  {
  }

  /** While the last pointer moves up, only the node above it may be too heavy for it. */
  ghost predicate Rising(a: seq<int>, h: int, current: int, parent: int)
  {
    (forall p :: 1 <= p && p != parent ==> NodeOk(a, h, p)) &&
    (parent > 0 ==>
       (forall c :: c != current && (c == 2 * parent || c == 2 * parent + 1) && c <= h ==> W(a, parent) <= W(a, c)) &&
       (2 * current <= h ==> W(a, parent) <= W(a, 2 * current)) &&
       (2 * current + 1 <= h ==> W(a, parent) <= W(a, 2 * current + 1)))
  }

  lemma StartRising(a: seq<int>, h: nat)
    requires h >= 1 && Ordered(a, h - 1, 1)
    ensures Rising(a, h, h, h / 2)
  {
    forall p | 1 <= p && p != h / 2 ensures NodeOk(a, h, p) { assert NodeOk(a, h - 1, p); }
    if h / 2 > 0 {
      assert NodeOk(a, h - 1, h / 2);
    }
  }

  lemma EndRising(a: seq<int>, h: int, current: int, parent: int)
    requires Rising(a, h, current, parent) && 1 <= current <= h && parent == current / 2
    requires parent > 0 ==> W(a, parent) <= W(a, current)
    ensures Ordered(a, h, 1)
  {
    hide W;
    forall p | 1 <= p ensures NodeOk(a, h, p) {
      if p == parent {
        assert 2 * p != current && 2 * p <= h ==> W(a, p) <= W(a, 2 * p);
        assert 2 * p + 1 != current && 2 * p + 1 <= h ==> W(a, p) <= W(a, 2 * p + 1);
      }
    }
  }

  lemma RisenNode(a: seq<int>, b: seq<int>, h: nat, current: nat, parent: nat, p: nat)
    requires 1 <= parent && Rising(a, h, current, parent) && Exchanged(a, b, h, parent, current)
    requires current <= h && (current == 2 * parent || current == 2 * parent + 1) && W(a, parent) > W(a, current)
    requires 1 <= p && 2 * p != parent && 2 * p + 1 != parent
    ensures NodeOk(b, h, p)
  {
    hide W;
    if p == parent {
      assert 2 * p != current && 2 * p <= h ==> W(a, p) <= W(a, 2 * p);
      assert 2 * p + 1 != current && 2 * p + 1 <= h ==> W(a, p) <= W(a, 2 * p + 1);
    } else {
      assert NodeOk(a, h, p);
    }
  }

  lemma RisenTop(a: seq<int>, b: seq<int>, h: nat, current: nat, parent: nat, up: nat)
    requires 1 <= parent && Rising(a, h, current, parent) && Exchanged(a, b, h, parent, current)
    requires current <= h && (current == 2 * parent || current == 2 * parent + 1) && W(a, parent) > W(a, current)
    requires 1 <= up && (parent == 2 * up || parent == 2 * up + 1)
    ensures 2 * parent <= h ==> W(b, up) <= W(b, 2 * parent)
    ensures 2 * parent + 1 <= h ==> W(b, up) <= W(b, 2 * parent + 1)
    ensures forall c :: c != parent && (c == 2 * up || c == 2 * up + 1) && c <= h ==> W(b, up) <= W(b, c)
  {
    hide W;
    assert NodeOk(a, h, up);
    var sibling := if current == 2 * parent then 2 * parent + 1 else 2 * parent;
    assert sibling <= h ==> W(a, parent) <= W(a, sibling);
  }

  lemma RiseStep(a: seq<int>, b: seq<int>, h: nat, current: nat, parent: nat)
    requires 1 <= parent && Rising(a, h, current, parent) && Exchanged(a, b, h, parent, current)
    requires current <= h && (current == 2 * parent || current == 2 * parent + 1) && W(a, parent) > W(a, current)
    ensures Rising(b, h, parent, parent / 2)
  {
    hide W, NodeOk, Exchanged;
    var up := parent / 2;
    forall p | 1 <= p && p != up ensures NodeOk(b, h, p) {
      RisenNode(a, b, h, current, parent, p);
    }
    if up > 0 { RisenTop(a, b, h, current, parent, up); }
  }

  /** The loop that moves the new root up. */
  method SwapUp(heap: array<int>, h: nat, lo: int)
    requires 1 <= h <= heap.Length && h <= lo && Roots(heap[..], h, lo)
    requires Ordered(heap[..], h - 1, 1)
    modifies heap
    ensures Roots(heap[..], h, lo) && SameRoots(heap[..], old(heap[..]), h)
    ensures Ordered(heap[..], h, 1)
  {
    hide SameRoots, Rising, Ordered, Exchanged;
    var current := h;
    var parent := current / 2;
    SameSelf(heap[..], h);
    StartRising(heap[..], h);
    while parent > 0 && heap[heap[parent - 1]] > heap[heap[current - 1]]
      invariant 1 <= current <= h && parent == current / 2
      invariant Roots(heap[..], h, lo) && SameRoots(heap[..], old(heap[..]), h) && Rising(heap[..], h, current, parent)
      decreases parent
    {
      ghost var before := heap[..];
      assert W(before, parent) > W(before, current);
      SwapExchanges(before, h, lo, parent, current);
      Swap(heap, h, parent - 1, current - 1, lo);
      RiseStep(before, heap[..], h, current, parent);
      RootsTrans(heap[..], before, old(heap[..]), h);
      current := parent;
      parent := current / 2;
    }
    EndRising(heap[..], h, current, parent);
  }

  lemma LastMovesUp(a: seq<int>, h: nat, lo: int)
    requires 1 <= h <= |a| && Roots(a, h, lo)
    ensures var b := a[0 := a[h - 1]];
            Roots(b, h - 1, lo) && forall x :: x in b[..h - 1] <==> x in a[..h] && x != a[0]
  {
    var b := a[0 := a[h - 1]];
    forall x ensures x in b[..h - 1] <==> x in a[..h] && x != a[0] {
      if x in a[..h] && x != a[0] {
        var k :| 0 <= k < h && a[k] == x;
        assert b[if k == h - 1 then 0 else k] == x;
      }
    }
  }

  /** Removes the top pointer, which is a lightest one; the last one takes its place. */
  method PopTop(heap: array<int>, h: nat, lo: int) returns (top: int)
    requires 1 <= h <= heap.Length && h <= lo && Roots(heap[..], h, lo) && Ordered(heap[..], h, 1)
    modifies heap
    ensures lo <= top < heap.Length && top in old(heap[..])[..h] && Roots(heap[..], h - 1, lo)
    ensures forall x :: x in heap[..h - 1] <==> x in old(heap[..h]) && x != top
    ensures heap[h..] == old(heap[h..]) && Ordered(heap[..], h - 1, 1)
    ensures forall x :: x in old(heap[..h]) ==> lo <= x < heap.Length && old(heap[top]) <= old(heap[x])
  {
    hide Ordered, SameRoots;
    ghost var a := heap[..];
    top := heap[0];
    LeastOfAll(a, h, lo);
    heap[0] := heap[h - 1];
    ghost var b := heap[..];
    LastMovesUp(a, h, lo);
    assert b == a[0 := a[h - 1]];
    TopReplaced(a, h, lo);
    Sift(heap, h - 1, 1, lo);
    RootsStay(heap[..], b, h - 1);
    assert heap[..h - 1] == heap[..][..h - 1];
    assert a[..h] == old(heap[..h]);
    assert heap[h..] == heap[..][h - 1..][1..] == b[h - 1..][1..] == a[h..];
  }

  lemma RootsStay(a: seq<int>, b: seq<int>, h: nat)
    requires h <= |a| == |b| && SameRoots(a, b, h)
    ensures (forall x :: x in a[..h] <==> x in b[..h]) && a[h..] == b[h..]
  {
  }

  lemma LeastOfAll(a: seq<int>, h: nat, lo: int)
    requires 1 <= h <= lo && Roots(a, h, lo) && Ordered(a, h, 1)
    ensures forall x :: x in a[..h] ==> lo <= x < |a| && a[a[0]] <= a[x]
  {
    hide Ordered;
    forall x | x in a[..h] ensures lo <= x < |a| && a[a[0]] <= a[x] {
      var k :| 0 <= k < h && a[k] == x;
      TopIsLeast(a, h, k + 1);
    }
  }

  lemma TopReplaced(a: seq<int>, h: nat, lo: int)
    requires 1 <= h <= lo && Roots(a, h, lo) && Ordered(a, h, 1)
    ensures Ordered(a[0 := a[h - 1]], h - 1, 2)
  {
    var b := a[0 := a[h - 1]];
    var g := h - 1;
    forall p | 2 <= p ensures NodeOk(b, g, p) { assert NodeOk(a, h, p); }
  }

  // ----- the forest

  /** The forest with roots `heap[..h]`: `parent` is 0 for roots and agrees with the array for the
      other nodes. */
  ghost predicate Forest(n: nat, heap: seq<int>, h: nat, parent: seq<int>, left: seq<int>, right: seq<int>)
  {
    1 <= h <= n && |heap| == |parent| == 2 * n && |left| == |right| == n && Roots(heap, h, h) &&
    (forall p :: h <= p < 2 * n ==> (parent[p] == 0 <==> p in heap[..h])) &&
    (forall p :: h <= p < 2 * n && parent[p] != 0 ==> heap[p] == parent[p] && h <= parent[p] < n && parent[p] < p) &&
    forall k :: h <= k < n ==> TwoChildren(n, parent, left, right, k)
  }

  /** The cells of the roots hold their weights, and every inner node was made from two lightest roots. */
  ghost predicate Weighted(n: nat, heap: seq<int>, h: nat, parent: seq<int>, left: seq<int>, right: seq<int>, w: seq<int>)
  {
    |heap| == |parent| == |w| == 2 * n && |left| == |right| == n &&
    (forall p :: h <= p < 2 * n && parent[p] == 0 ==> heap[p] == w[p]) &&
    forall k :: h <= k < n ==> Greedy(n, parent, left, right, w, k)
  }

  /** One turn of phase 2: two lightest roots become the children of the new node `h - 1`, which gets
      their weights together. */
  method Merge(n: nat, heap: array<int>, h: nat, ghost parent: seq<int>, ghost left: seq<int>, ghost right: seq<int>, ghost w: seq<int>)
    returns (ghost parent': seq<int>, ghost left': seq<int>, ghost right': seq<int>, ghost w': seq<int>)
    requires h >= 2 && heap.Length == 2 * n && Forest(n, heap[..], h, parent, left, right) && Ordered(heap[..], h, 1)
    requires Weighted(n, heap[..], h, parent, left, right, w)
    modifies heap
    ensures Forest(n, heap[..], h - 1, parent', left', right') && parent'[h - 1] == 0 && Ordered(heap[..], h - 1, 1)
    ensures Weighted(n, heap[..], h - 1, parent', left', right', w') && w'[n..] == w[n..]
    ensures Lightest(old(heap[..]), h, left'[h - 1], right'[h - 1])
    ensures heap[h - 1] == old(heap[..])[left'[h - 1]] + old(heap[..])[right'[h - 1]]
  {
    hide TwoChildren, Forest, Ordered, Lightest, Roots, Weighted;
    ghost var before := heap[..];
    ForestRoots(n, before, h, parent, left, right);
    var pos0, pos1 := PopTwo(heap, h);
    ghost var popped, roots := heap[..], heap[..h - 2];
    DistinctRoots(heap[..], h - 2, h);
    var k := h - 1;
    Join(heap, k, pos0, pos1, roots, before[h..]);
    parent' := parent[pos0 := k][pos1 := k][k := 0];
    left', right' := left[k := pos0], right[k := pos1];
    w' := WeightsMerged(n, before, heap[..], h, parent, left, right, w, pos0, pos1);
    ghost var merged := heap[..];
    Merged(n, before, merged, h, parent, left, right, pos0, pos1, roots);
    JoinKeepsOrder(popped, merged, h, pos0, pos1);
    ForestRoots(n, merged, k, parent', left', right');
    SwapUp(heap, k, k);
    ForestReordered(n, merged, heap[..], k, parent', left', right');
    WeightsReordered(n, merged, heap[..], k, parent', left', right', w');
    CellStays(merged, heap[..], k);
  }

  lemma WeightsReordered(n: nat, a: seq<int>, b: seq<int>, h: nat, parent: seq<int>, left: seq<int>, right: seq<int>, w: seq<int>)
    requires h <= |a| == |b| && Weighted(n, a, h, parent, left, right, w) && SameRoots(b, a, h)
    ensures Weighted(n, b, h, parent, left, right, w)
  {
    hide Greedy;
    forall p | h <= p < 2 * n ensures b[p] == a[p] { assert b[h..][p - h] == a[h..][p - h]; }
  }

  lemma WeightsMerged(n: nat, a: seq<int>, b: seq<int>, h: nat, parent: seq<int>, left: seq<int>, right: seq<int>, w: seq<int>,
                      x: int, y: int) returns (w': seq<int>)
    requires h >= 2 && Forest(n, a, h, parent, left, right) && Weighted(n, a, h, parent, left, right, w)
    requires Lightest(a, h, x, y) && h <= x < 2 * n && h <= y < 2 * n && |b| == 2 * n
    requires b[h..] == a[h..][x - h := h - 1][y - h := h - 1] && b[h - 1] == a[x] + a[y]
    ensures var k := h - 1;
            Weighted(n, b, k, parent[x := k][y := k][k := 0], left[k := x], right[k := y], w')
    ensures |w'| == |w| && w'[n..] == w[n..]
  {
    var k := h - 1;
    w' := w[k := a[x] + a[y]];
    var parent', left', right' := parent[x := k][y := k][k := 0], left[k := x], right[k := y];
    forall p | h <= p < 2 * n ensures b[p] == if p == x || p == y then k else a[p] { assert b[p] == b[h..][p - h]; }
    NewIsGreedy(n, a, h, parent, left, right, w, x, y);
    forall j | h <= j < n ensures Greedy(n, parent', left', right', w', j) {
      OldIsGreedy(n, h, parent, left, right, w, x, y, w'[k], j);
    }
  }

  lemma NewIsGreedy(n: nat, a: seq<int>, h: nat, parent: seq<int>, left: seq<int>, right: seq<int>, w: seq<int>, x: int, y: int)
    requires h >= 2 && Forest(n, a, h, parent, left, right) && Weighted(n, a, h, parent, left, right, w)
    requires Lightest(a, h, x, y) && h <= x < 2 * n && h <= y < 2 * n
    ensures var k := h - 1;
            Greedy(n, parent[x := k][y := k][k := 0], left[k := x], right[k := y], w[k := a[x] + a[y]], k)
  {
    hide TwoChildren;
    var k := h - 1;
    var parent' := parent[x := k][y := k][k := 0];
    assert parent[x] == parent[y] == 0;
    forall p | IsRoot(parent', k, p) ensures p in a[..h] && a[p] == w[p] {
      assert parent[p] == 0;
    }
  }

  lemma OldIsGreedy(n: nat, h: nat, parent: seq<int>, left: seq<int>, right: seq<int>, w: seq<int>, x: int, y: int, v: int, j: nat)
    requires 2 <= h <= j < n && |parent| == |w| == 2 * n && |left| == |right| == n
    requires TwoChildren(n, parent, left, right, j) && Greedy(n, parent, left, right, w, j)
    requires h <= x < 2 * n && h <= y < 2 * n && parent[x] == parent[y] == 0
    ensures var k := h - 1;
            Greedy(n, parent[x := k][y := k][k := 0], left[k := x], right[k := y], w[k := v], j)
  {
    var k := h - 1;
    var parent' := parent[x := k][y := k][k := 0];
    forall p | IsRoot(parent', j, p) ensures IsRoot(parent, j, p) { }
  }

  /** The loop that removes two roots. */
  method PopTwo(heap: array<int>, h: nat) returns (pos0: int, pos1: int)
    requires 2 <= h <= heap.Length && Roots(heap[..], h, h) && Ordered(heap[..], h, 1)
    modifies heap
    ensures h <= pos0 < heap.Length && h <= pos1 < heap.Length && pos0 != pos1
    ensures pos0 in old(heap[..])[..h] && pos1 in old(heap[..])[..h]
    ensures Roots(heap[..], h - 2, h) && Ordered(heap[..], h - 2, 1) && heap[h..] == old(heap[..])[h..]
    ensures forall x :: x in heap[..h - 2] <==> x in old(heap[..])[..h] && x != pos0 && x != pos1
    ensures Lightest(old(heap[..]), h, pos0, pos1)
    ensures heap[pos0] == old(heap[pos0]) && heap[pos1] == old(heap[pos1])
  {
    hide Ordered, Lightest, Roots;
    ghost var before := heap[..];
    assert before[..h] == heap[..h];
    pos0 := PopTop(heap, h, h);
    ghost var between := heap[..];
    assert between[..h - 1] == heap[..h - 1];
    pos1 := PopTop(heap, h - 1, h);
    assert between[h..] == before[h..] by { assert heap.Length == |before|; }
    assert heap[h..] == heap[h - 1..][1..] == between[h - 1..][1..] == between[h..];
    TwoLightest(before, between, h, pos0, pos1);
    assert heap[pos0] == heap[h..][pos0 - h] && heap[pos1] == heap[h..][pos1 - h];
  }

  /** Two roots such that no other is lighter. */
  ghost predicate Lightest(a: seq<int>, h: nat, x: int, y: int)
    requires h <= |a|
  {
    x in a[..h] && y in a[..h] && x != y && 0 <= x < |a| && 0 <= y < |a| &&
    forall z :: z in a[..h] ==> 0 <= z < |a| && a[x] <= a[z] && (z != x ==> a[y] <= a[z])
  }

  lemma TwoLightest(a: seq<int>, b: seq<int>, h: nat, x: int, y: int)
    requires 2 <= h <= |a| == |b| && a[h..] == b[h..] && x in a[..h] && y in b[..h - 1]
    requires 0 <= x < |a| && 0 <= y < |b|
    requires forall z :: z in a[..h] ==> h <= z < |a| && a[x] <= a[z]
    requires forall z :: z in b[..h - 1] <==> z in a[..h] && z != x
    requires forall z :: z in b[..h - 1] ==> h <= z < |b| && b[y] <= b[z]
    ensures Lightest(a, h, x, y)
  {
    forall z | h <= z < |a| ensures a[z] == b[z] { assert a[h..][z - h] == b[h..][z - h]; }
  }

  lemma CellStays(a: seq<int>, b: seq<int>, h: nat)
    requires h < |a| == |b| && SameRoots(b, a, h)
    ensures b[h] == a[h]
  {
    assert a[h..][0] == b[h..][0];
  }

  /** Storing the new node does not touch the weights of the other roots. */
  lemma JoinKeepsOrder(a: seq<int>, b: seq<int>, h: nat, x: int, y: int)
    requires 2 <= h < |a| == |b| && Roots(a, h - 2, h) && Ordered(a, h - 2, 1) && h <= x < |a| && h <= y < |a|
    requires x !in a[..h - 2] && y !in a[..h - 2]
    requires b[..h - 1] == a[..h - 2] + [h - 1] && b[h..] == a[h..][x - h := h - 1][y - h := h - 1]
    ensures Ordered(b, h - 2, 1)
  {
    forall p | 1 <= p <= h - 2 ensures W(b, p) == W(a, p) {
      assert b[p - 1] == b[..h - 1][p - 1] == a[p - 1] == a[..h - 2][p - 1];
      var z := a[p - 1];
      assert z != x && z != y;
      assert b[z] == b[h..][z - h] == a[h..][z - h] == a[z];
    }
    hide W;
    var g := h - 2;
    forall p | 1 <= p ensures NodeOk(b, g, p) { assert NodeOk(a, g, p); }
  }

  /** Stores the new node: its pointer, its accumulated frequency and the pointers to it. */
  method Join(heap: array<int>, k: nat, pos0: int, pos1: int, ghost roots: seq<int>, ghost cells: seq<int>)
    requires 1 <= k < pos0 < heap.Length && k < pos1 < heap.Length && pos0 != pos1
    requires heap[..k - 1] == roots && heap[k + 1..] == cells
    modifies heap
    ensures heap[..k] == roots + [k] && heap[k + 1..] == cells[pos0 - k - 1 := k][pos1 - k - 1 := k]
    ensures heap[k] == old(heap[pos0]) + old(heap[pos1])
  {
    heap[k - 1] := k;
    heap[k] := heap[pos0] + heap[pos1];
    heap[pos0] := k;
    heap[pos1] := k;
  }

  lemma ForestRoots(n: nat, heap: seq<int>, h: nat, parent: seq<int>, left: seq<int>, right: seq<int>)
    requires Forest(n, heap, h, parent, left, right)
    ensures Roots(heap, h, h) && 1 <= h <= n && |parent| == |heap| == 2 * n && |left| == |right| == n
  {
  }

  predicate Distinct(s: seq<int>, lo: int, hi: int)
  {
    (forall i :: 0 <= i < |s| ==> lo <= s[i] < hi) && forall i, j :: 0 <= i < j < |s| ==> s[i] != s[j]
  }

  lemma DistinctRoots(heap: seq<int>, h: nat, lo: int)
    requires Roots(heap, h, lo)
    ensures Distinct(heap[..h], lo, |heap|)
  {
  }

  lemma Merged(n: nat, before: seq<int>, heap: seq<int>, h: nat, parent: seq<int>, left: seq<int>, right: seq<int>,
               pos0: int, pos1: int, roots: seq<int>)
    requires h >= 2 && Forest(n, before, h, parent, left, right) && |heap| == 2 * n
    requires pos0 in before[..h] && pos1 in before[..h] && pos0 != pos1
    requires h <= pos0 < 2 * n && h <= pos1 < 2 * n
    requires |roots| == h - 2 && Distinct(roots, h, 2 * n) && heap[..h - 1] == roots + [h - 1]
    requires forall x :: x in roots <==> x in before[..h] && x != pos0 && x != pos1
    requires heap[h..] == before[h..][pos0 - h := h - 1][pos1 - h := h - 1]
    ensures var k := h - 1;
            Forest(n, heap, k, parent[pos0 := k][pos1 := k][k := 0], left[k := pos0], right[k := pos1])
  {
    hide TwoChildren;
    var k := h - 1;
    var parent' := parent[pos0 := k][pos1 := k][k := 0];
    MergedRoots(heap, k, roots, 2 * n);
    forall p | h <= p < 2 * n ensures heap[p] == if p == pos0 || p == pos1 then k else before[p] {
      assert heap[p] == heap[h..][p - h];
    }
    forall p | k <= p < 2 * n ensures parent'[p] == 0 <==> p in heap[..k] {
      if p > k {
        assert p in heap[..k] <==> p in roots;
      } else {
        assert heap[..k][k - 1] == k;
      }
    }
    MergedChildren(n, h, parent, left, right, pos0, pos1, parent', left[k := pos0], right[k := pos1]);
  }

  lemma MergedRoots(heap: seq<int>, k: nat, roots: seq<int>, hi: int)
    requires 1 <= k < hi == |heap| && |roots| == k - 1 && Distinct(roots, k + 1, hi) && heap[..k] == roots + [k]
    ensures Roots(heap, k, k)
  {
    assert forall i :: 0 <= i < k ==> heap[i] == heap[..k][i];
  }

  lemma MergedChildren(n: nat, h: nat, parent: seq<int>, left: seq<int>, right: seq<int>, pos0: int, pos1: int,
                       parent': seq<int>, left': seq<int>, right': seq<int>)
    requires 2 <= h <= n && |parent| == 2 * n && |left| == |right| == n
    requires h <= pos0 < 2 * n && h <= pos1 < 2 * n && pos0 != pos1 && parent[pos0] == parent[pos1] == 0
    requires forall p :: h <= p < 2 * n && parent[p] != 0 ==> h <= parent[p]
    requires forall k :: h <= k < n ==> TwoChildren(n, parent, left, right, k)
    requires parent' == parent[pos0 := h - 1][pos1 := h - 1][h - 1 := 0]
    requires left' == left[h - 1 := pos0] && right' == right[h - 1 := pos1]
    ensures forall j :: h - 1 <= j < n ==> TwoChildren(n, parent', left', right', j)
  {
    forall j | h - 1 <= j < n ensures TwoChildren(n, parent', left', right', j) {
      if j > h - 1 { assert TwoChildren(n, parent, left, right, j); }
    }
  }

  lemma ForestReordered(n: nat, a: seq<int>, b: seq<int>, h: nat, parent: seq<int>, left: seq<int>, right: seq<int>)
    requires Forest(n, a, h, parent, left, right) && |b| == 2 * n && SameRoots(b, a, h) && Roots(b, h, h)
    ensures Forest(n, b, h, parent, left, right)
  {
    hide TwoChildren;
    forall p | h <= p < 2 * n ensures b[p] == a[p] { assert b[h..][p - h] == a[h..][p - h]; }
  }

  // ----- the three phases

  /** The weights of the items: their frequencies, and one more. */
  function Weights(freqs: seq<nat>): (w: seq<int>)
    ensures |w| == |freqs|
  {
    seq(|freqs|, i requires 0 <= i < |freqs| => freqs[i] + 1)
  }

  /** Phase 1: pointers to the frequency cells, made into a heap. */
  method InitHeap(freqs: seq<nat>)
    returns (heap: array<int>, ghost parent: seq<int>, ghost left: seq<int>, ghost right: seq<int>, ghost w: seq<int>)
    requires |freqs| >= 1
    ensures fresh(heap) && heap.Length == 2 * |freqs|
    ensures Forest(|freqs|, heap[..], |freqs|, parent, left, right) && Ordered(heap[..], |freqs|, 1)
    ensures Weighted(|freqs|, heap[..], |freqs|, parent, left, right, w) && w[|freqs|..] == Weights(freqs)
    ensures |w| == 2 * |freqs| && forall p :: |freqs| <= p < 2 * |freqs| ==> w[p] >= 1
  {
    hide Ordered, Greedy;
    var n := |freqs|;
    heap := new int[2 * n](_ => 0);
    for i := 0 to n
      invariant forall j :: 0 <= j < i ==> heap[j] == n + j && heap[n + j] == freqs[j] + 1
    {
      heap[i] := n + i;
      heap[n + i] := freqs[i] + 1;
    }
    parent, left, right, w := seq(2 * n, _ => 0), seq(n, _ => 0), seq(n, _ => 0), heap[..];
    assert w[n..] == Weights(freqs);
    forall p | n <= p < 2 * n ensures p in heap[..n] { assert heap[..n][p - n] == p; }
    MakeHeap(n, heap, parent, left, right, w);
  }

  /** The loop that establishes the heap order. */
  method MakeHeap(n: nat, heap: array<int>, ghost parent: seq<int>, ghost left: seq<int>, ghost right: seq<int>, ghost w: seq<int>)
    requires heap.Length == 2 * n && Forest(n, heap[..], n, parent, left, right) && Weighted(n, heap[..], n, parent, left, right, w)
    modifies heap
    ensures Forest(n, heap[..], n, parent, left, right) && Weighted(n, heap[..], n, parent, left, right, w)
    ensures Ordered(heap[..], n, 1)
  {
    hide Ordered, Forest, Weighted, Roots;
    ForestRoots(n, heap[..], n, parent, left, right);
    OrderedLeaves(heap[..], n);
    var i := n / 2;
    while i > 0
      invariant i >= 0 && Forest(n, heap[..], n, parent, left, right) && Ordered(heap[..], n, i + 1)
      invariant Weighted(n, heap[..], n, parent, left, right, w)
    {
      ghost var before := heap[..];
      ForestRoots(n, before, n, parent, left, right);
      Sift(heap, n, i, n);
      ForestReordered(n, before, heap[..], n, parent, left, right);
      WeightsReordered(n, before, heap[..], n, parent, left, right, w);
      i := i - 1;
    }
  }

  lemma OrderedLeaves(a: seq<int>, h: nat)
    ensures Ordered(a, h, h / 2 + 1)
  {
  }

  /** Phase 2: merging until one root is left. */
  method BuildTree(n: nat, heap: array<int>, ghost parent: seq<int>, ghost left: seq<int>, ghost right: seq<int>, ghost w: seq<int>)
    returns (ghost parent': seq<int>, ghost left': seq<int>, ghost right': seq<int>, ghost w': seq<int>)
    requires n >= 2 && heap.Length == 2 * n && Forest(n, heap[..], n, parent, left, right) && Ordered(heap[..], n, 1)
    requires Weighted(n, heap[..], n, parent, left, right, w) && forall p :: n <= p < 2 * n ==> w[p] >= 1
    modifies heap
    ensures GreedyTree(n, parent', left', right', w') && w'[n..] == w[n..]
    ensures forall p :: 2 <= p < 2 * n ==> heap[p] == parent'[p]
  {
    hide TwoChildren, Ordered, Lightest, Greedy;
    parent', left', right', w' := parent, left, right, w;
    var h := n;
    while h > 1
      invariant 1 <= h <= n && Forest(n, heap[..], h, parent', left', right') && Ordered(heap[..], h, 1)
      invariant Weighted(n, heap[..], h, parent', left', right', w') && w'[n..] == w[n..]
      invariant h < n ==> parent'[h] == 0
    {
      parent', left', right', w' := Merge(n, heap, h, parent', left', right', w');
      h := h - 1;
    }
    assert 1 in heap[..1];
    forall p | 2 <= p < 2 * n ensures parent'[p] != 0 {
      assert heap[..1][0] == 1;
    }
    forall p | n <= p < 2 * n ensures w'[p] >= 1 { assert w'[n..][p - n] == w[n..][p - n]; }
  }

  /** Phase 3: from the root down, parent pointers become depths. */
  method PointersToDepths(n: nat, heap: array<int>, ghost parent: seq<int>, ghost left: seq<int>, ghost right: seq<int>)
    requires n >= 2 && heap.Length == 2 * n && Tree(n, parent, left, right)
    requires forall p :: 2 <= p < 2 * n ==> heap[p] == parent[p]
    modifies heap
    ensures forall p :: 1 <= p < 2 * n ==> heap[p] == Depth(parent, p)
  {
    hide TwoChildren;
    heap[0] := -1;
    heap[1] := 0;
    for i := 2 to 2 * n
      invariant forall p :: 1 <= p < i ==> heap[p] == Depth(parent, p)
      invariant forall p :: i <= p < 2 * n ==> heap[p] == parent[p]
    {
      heap[i] := heap[heap[i]] + 1;
    }
  }

  /** No path can visit more than all inner nodes. */
  lemma {:induction false} DepthBelowIndex(n: nat, parent: seq<int>, left: seq<int>, right: seq<int>, p: nat)
    requires Tree(n, parent, left, right) && 1 <= p < 2 * n
    ensures Depth(parent, p) < p && Depth(parent, p) < n
  {
    hide TwoChildren;
    if p > 1 { DepthBelowIndex(n, parent, left, right, parent[p]); }
  }

  /** The code lengths of compute_code_lengths, with the shortest and the longest. */
  method CodeLengths(freqs: seq<nat>) returns (cl: seq<nat>, minLen: nat, maxLen: nat)
    requires |freqs| >= 1
    ensures |cl| == |freqs| && Lengths(cl, maxLen) && 1 <= minLen <= maxLen
    ensures forall i :: 0 <= i < |cl| ==> minLen <= cl[i]
    ensures if |freqs| == 1 then cl == [1] && maxLen == 1 else Complete(cl, maxLen) && maxLen < |freqs|
    ensures |freqs| >= 2 ==> Optimal(Weights(freqs), cl) && Sum(Weights(freqs)) >= Fib(maxLen + 2)
  {
    hide Complete, TwoChildren, Greedy, Optimal, Sum, Fib, Forest, Ordered, Weighted;
    var n := |freqs|;
    ghost var parent, left, right, w;
    var heap;
    heap, parent, left, right, w := InitHeap(freqs);
    if n == 1 { return [1], 1, 1; }
    parent, left, right, w := BuildTree(n, heap, parent, left, right, w);
    PointersToDepths(n, heap, parent, left, right);
    cl, minLen, maxLen := ReadLengths(n, heap, parent, left, right);
    LeafDepthsComplete(n, parent, left, right, cl, maxLen);
    DepthsOptimal(n, parent, left, right, w, cl);
    ghost var i :| 0 <= i < n && cl[i] == maxLen;
    DeepNeedsWeight(n, parent, left, right, w, n + i);
  }

  /** The loop that collects the depths of the leaves. */
  method ReadLengths(n: nat, heap: array<int>, ghost parent: seq<int>, ghost left: seq<int>, ghost right: seq<int>)
    returns (cl: seq<nat>, minLen: nat, maxLen: nat)
    requires heap.Length == 2 * n && Tree(n, parent, left, right)
    requires forall p :: 1 <= p < 2 * n ==> heap[p] == Depth(parent, p)
    ensures Depths(n, parent, cl) && 1 <= minLen <= maxLen < n
    ensures (forall i :: 0 <= i < n ==> minLen <= cl[i] <= maxLen) && exists i :: 0 <= i < n && cl[i] == maxLen
  {
    hide TwoChildren;
    cl, minLen, maxLen := [], 100, 0;
    ghost var deepest := 0;
    for i := 0 to n
      invariant |cl| == i && forall j :: 0 <= j < i ==> cl[j] == Depth(parent, n + j)
      invariant forall j :: 0 <= j < i ==> minLen <= cl[j] <= maxLen
      invariant forall p :: 1 <= p < 2 * n ==> heap[p] == Depth(parent, p)
      invariant 1 <= minLen && maxLen < n && (i > 0 ==> minLen <= maxLen)
      invariant if i == 0 then maxLen == 0 else 0 <= deepest < i && cl[deepest] == maxLen
    {
      DepthBelowIndex(n, parent, left, right, n + i);
      var l := heap[n + i];
      assert l == Depth(parent, parent[n + i]) + 1;
      if l > maxLen {
        maxLen := l;
        deepest := i;
      }
      if l < minLen { minLen := l; }
      assert i > 0 ==> deepest < i ==> cl[deepest] == (cl + [l])[deepest];
      assert (cl + [l])[i] == l >= 1;
      cl := cl + [l];
    }
  }

  // ----- compute_code_lengths as a whole

  datatype Compressed = CodesTooLong | Compressed(h: HCD, cis: seq<Byte>, sync: seq<int>)

  /** Compresses an item sequence; `words` are the codes it used. */
  method Compress(freqs: seq<nat>, items: seq<int>) returns (c: Compressed, ghost words: seq<Word>)
    requires |freqs| >= 1 && InLexicon(items, |freqs|)
    ensures c.Compressed? ==> |words| == |freqs| && Holds(c.h, words, items, c.cis, c.sync) && AllLaid(words, items, c.cis, c.sync)
    ensures |freqs| <= MAXCODELEN || Sum(Weights(freqs)) < 5702887 ==> c.Compressed?
  {
    hide Complete, Holds, AllLaid, Codes, Sum, Optimal, Fib;
    var cl, minLen, maxLen := CodeLengths(freqs);
    FibBelowCodeLimit();
    if maxLen >= 32 { FibGrows(34, maxLen + 2); }
    if maxLen >= MAXCODELEN { return CodesTooLong, []; }
    var h, ws := AssignCodes(cl, |items|, minLen, maxLen);
    var cis, sync := WriteSequence(h, ws, items);
    return Compressed(h, cis, sync), ws;
  }

  /** Compression followed by any run of accesses gives the items of the plain sequence. */
  method RoundTrip(freqs: seq<nat>, items: seq<int>, positions: seq<int>) returns (c: Compressed, rs: seq<Lookup>)
    requires |freqs| >= 1 && InLexicon(items, |freqs|)
    ensures |freqs| <= MAXCODELEN || Sum(Weights(freqs)) < 5702887 ==> c.Compressed?
    ensures c.Compressed? ==> |rs| == |positions|
    ensures c.Compressed? ==> forall k :: 0 <= k < |rs| ==>
              rs[k] == if 0 <= positions[k] < |items| then Id(items[positions[k]]) else PositionOutOfRange
  {
    hide Holds, Sum;
    ghost var words;
    rs := [];
    c, words := Compress(freqs, items);
    if c.Compressed? {
      var a := new CompressedSequence(c.h, c.cis, c.sync, words, items);
      rs := a.Accesses(positions);
    }
  }
}
