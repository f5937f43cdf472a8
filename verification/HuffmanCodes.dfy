/** From code lengths to the code descriptor block: the canonical code assignment at the end of
    compute_code_lengths (utils/cwb-huffcode.c). */
module HuffmanCodes {
  import opened BitIO
  import opened Huffman

  /** How many of the first `n` items have codes of length `l`. */
  function Count(cl: seq<nat>, l: nat, n: nat): (c: nat)
    requires n <= |cl|
    ensures c <= n
  {
    if n == 0 then 0 else Count(cl, l, n - 1) + if cl[n - 1] == l then 1 else 0
  }

  function Total(cl: seq<nat>, l: nat): nat
  {
    Count(cl, l, |cl|)
  }

  predicate Lengths(cl: seq<nat>, d: nat)
  {
    cl != [] && 1 <= d && forall i :: 0 <= i < |cl| ==> 1 <= cl[i] <= d
  }

  /** The nodes at depth `l - 1` of the code tree that are taken up by codes shorter than `l`. */
  function Taken(cl: seq<nat>, l: nat): nat
  {
    if l <= 1 then 0 else 2 * Taken(cl, l - 1) + Total(cl, l - 1)
  }

  /** Kraft's equality: the codes fill the tree of depth `d`. */
  predicate Complete(cl: seq<nat>, d: nat)
  {
    Taken(cl, d + 1) == Pow2(d)
  }

  function MinCode(cl: seq<nat>, d: nat, l: nat): nat
    decreases d - l
  {
    if l >= d then 0 else (MinCode(cl, d, l + 1) + Total(cl, l + 1)) / 2
  }

  /** In a complete code the first free node of each depth comes right after the codes above it,
      so the halvings of the assignment are exact. */
  lemma {:induction false} MinCodeExact(cl: seq<nat>, d: nat, l: nat)
    requires Complete(cl, d) && 1 <= l <= d
    ensures MinCode(cl, d, l) + Total(cl, l) == Pow2(l) - 2 * Taken(cl, l)
    ensures l < d ==> 2 * MinCode(cl, d, l) == MinCode(cl, d, l + 1) + Total(cl, l + 1)
    decreases d - l
  {
    assert Taken(cl, l + 1) == 2 * Taken(cl, l) + Total(cl, l);
    if l < d {
      MinCodeExact(cl, d, l + 1);
      PowStep(l);
    }
  }

  function SymIndex(cl: seq<nat>, l: nat): nat
  {
    if l == 0 then 0 else SymIndex(cl, l - 1) + Total(cl, l - 1)
  }

  lemma {:induction false} SymIndexMonotone(cl: seq<nat>, l: nat, m: nat)
    requires l < m
    ensures SymIndex(cl, l) + Total(cl, l) <= SymIndex(cl, m)
  {
    if l < m - 1 { SymIndexMonotone(cl, l, m - 1); }
  }

  lemma {:induction false} SymIndexBound(cl: seq<nat>, l: nat, n: nat)
    requires n <= |cl|
    ensures PartialIndex(cl, l, n) <= n
  {
    if n == 0 {
      NothingIndexed(cl, l);
    } else {
      SymIndexBound(cl, l, n - 1);
      OneIndexed(cl, l, n);
    }
  }

  /** Items among the first `n` with codes shorter than `l`. */
  function PartialIndex(cl: seq<nat>, l: nat, n: nat): nat
    requires n <= |cl|
  {
    if l == 0 then 0 else PartialIndex(cl, l - 1, n) + Count(cl, l - 1, n)
  }

  lemma {:induction false} NothingIndexed(cl: seq<nat>, l: nat)
    ensures PartialIndex(cl, l, 0) == 0
  {
    if l > 0 { NothingIndexed(cl, l - 1); }
  }

  lemma {:induction false} OneIndexed(cl: seq<nat>, l: nat, n: nat)
    requires 0 < n <= |cl|
    ensures PartialIndex(cl, l, n) == PartialIndex(cl, l, n - 1) + if cl[n - 1] < l then 1 else 0
  {
    if l > 0 { OneIndexed(cl, l - 1, n); }
  }

  lemma {:induction false} WholeIndex(cl: seq<nat>, l: nat)
    ensures SymIndex(cl, l) == PartialIndex(cl, l, |cl|)
  {
    if l > 0 { WholeIndex(cl, l - 1); }
  }

  lemma SymbolsFit(cl: seq<nat>, l: nat)
    ensures SymIndex(cl, l) + Total(cl, l) <= |cl|
  {
    WholeIndex(cl, l + 1);
    SymIndexBound(cl, l + 1, |cl|);
  }

  /** The place of item `i` among the symbols. */
  function Slot(cl: seq<nat>, i: nat): nat
    requires i < |cl|
  {
    SymIndex(cl, cl[i]) + Count(cl, cl[i], i)
  }

  lemma {:induction false} CountGrows(cl: seq<nat>, l: nat, m: nat, n: nat)
    requires m <= n <= |cl|
    ensures Count(cl, l, m) <= Count(cl, l, n)
  {
    if m < n { CountGrows(cl, l, m, n - 1); }
  }

  lemma RankBelowTotal(cl: seq<nat>, i: nat)
    requires i < |cl|
    ensures Count(cl, cl[i], i) < Total(cl, cl[i])
    ensures Slot(cl, i) < |cl|
  {
    CountGrows(cl, cl[i], i + 1, |cl|);
    SymbolsFit(cl, cl[i]);
  }

  lemma SlotsDistinct(cl: seq<nat>, i: nat, j: nat)
    requires i < j < |cl|
    ensures Slot(cl, i) != Slot(cl, j)
  {
    RankBelowTotal(cl, i);
    RankBelowTotal(cl, j);
    if cl[i] == cl[j] {
      CountGrows(cl, cl[i], i + 1, j);
    } else if cl[i] < cl[j] {
      SymIndexMonotone(cl, cl[i], cl[j]);
    } else {
      SymIndexMonotone(cl, cl[j], cl[i]);
    }
  }

  /** The word of item `i`: the codes of one length are issued in the order of the items. */
  function WordOf(cl: seq<nat>, d: nat, i: nat): Word
    requires i < |cl|
  {
    Word(cl[i], MinCode(cl, d, cl[i]) + Count(cl, cl[i], i))
  }

  /** The items `m .. n - 1` with codes of length `l`. */
  ghost function OfLength(cl: seq<nat>, l: nat, m: nat, n: nat): set<nat>
    requires m <= n <= |cl|
  {
    set k: nat | m <= k < n && cl[k] == l
  }

  /** The canonical order: among items of one length codes and places go up one by one in the order of
      the items, and items with shorter codes have the earlier places. */
  lemma CanonicalOrder(cl: seq<nat>, d: nat, i: nat, j: nat)
    requires i < |cl| && j < |cl| && i != j
    ensures cl[i] < cl[j] ==> Slot(cl, i) < Slot(cl, j)
    ensures i < j && cl[i] == cl[j] ==>
              Slot(cl, j) - Slot(cl, i) == WordOf(cl, d, j).code - WordOf(cl, d, i).code ==
              |OfLength(cl, cl[i], i, j)|
  {
    hide MinCode;
    if cl[i] < cl[j] {
      RankBelowTotal(cl, i);
      SymIndexMonotone(cl, cl[i], cl[j]);
    }
    if i < j && cl[i] == cl[j] { CountedItems(cl, cl[i], i, j); }
  }

  lemma {:induction false} CountedItems(cl: seq<nat>, l: nat, m: nat, n: nat)
    requires m <= n <= |cl|
    ensures Count(cl, l, n) - Count(cl, l, m) == |OfLength(cl, l, m, n)|
  {
    if m < n {
      CountedItems(cl, l, m, n - 1);
      OneItemMore(cl, l, m, n);
    } else {
      assert OfLength(cl, l, m, n) == {};
    }
  }

  lemma OneItemMore(cl: seq<nat>, l: nat, m: nat, n: nat)
    requires m < n <= |cl|
    ensures |OfLength(cl, l, m, n)| == |OfLength(cl, l, m, n - 1)| + if cl[n - 1] == l then 1 else 0
  {
    assert OfLength(cl, l, m, n) == OfLength(cl, l, m, n - 1) + if cl[n - 1] == l then {n - 1} else {};
  }

  ghost predicate Table(cl: seq<nat>, d: nat, h: HCD)
  {
    h.maxCodelen == d && |h.lcount| == |h.minCode| == |h.symindex| == MAXCODELEN &&
    (forall l :: 1 <= l <= d < MAXCODELEN ==>
       h.lcount[l] == Total(cl, l) && h.minCode[l] == MinCode(cl, d, l) && h.symindex[l] == SymIndex(cl, l)) &&
    |h.symbols| == |cl| && h.size == |cl| &&
    forall i :: 0 <= i < |cl| ==> Slot(cl, i) < |cl| && h.symbols[Slot(cl, i)] == i
  }

  /** The only code length of a lexicon with one type is one bit. */
  predicate Usable(cl: seq<nat>, d: nat)
  {
    Lengths(cl, d) && d < MAXCODELEN && (Complete(cl, d) || (d == 1 && |cl| == 1))
  }

  lemma TableIsWellFormed(cl: seq<nat>, d: nat, h: HCD)
    requires Usable(cl, d) && Table(cl, d, h)
    ensures WellFormed(h)
  {
    hide Pow2, Slot;
    forall l | 1 <= l <= d
      ensures h.minCode[l] + h.lcount[l] <= Pow2(l) && h.symindex[l] + h.lcount[l] <= |h.symbols|
      ensures l < d ==> 2 * h.minCode[l] == h.minCode[l + 1] + h.lcount[l + 1]
    {
      SymbolsFit(cl, l);
      if Complete(cl, d) { MinCodeExact(cl, d, l); } else { Powers(); }
    }
  }

  lemma TableCodes(cl: seq<nat>, d: nat, h: HCD, words: seq<Word>)
    requires Usable(cl, d) && Table(cl, d, h) && |words| == |cl|
    requires forall i :: 0 <= i < |cl| ==> words[i] == WordOf(cl, d, i)
    ensures Codes(h, words)
  {
    TableIsWellFormed(cl, d, h);
    forall i | 0 <= i < |cl| ensures CodeOf(h, words[i], i) {
      ItemCode(cl, d, h, i);
    }
    hide WellFormed, Table, WordOf, CodeOf;
    TableSize(cl, d, h);
  }

  lemma TableSize(cl: seq<nat>, d: nat, h: HCD)
    requires Table(cl, d, h)
    ensures h.size == |cl|
  {
  }

  lemma ItemCode(cl: seq<nat>, d: nat, h: HCD, i: nat)
    requires Usable(cl, d) && Table(cl, d, h) && WellFormed(h) && i < |cl|
    ensures CodeOf(h, WordOf(cl, d, i), i)
  {
    hide MinCode, SymIndex, Count, Complete, WellFormed;
    RankBelowTotal(cl, i);
    assert 1 <= cl[i] <= d;
  }

  // ----- the assignment itself

  method CountLengths(cl: seq<nat>) returns (lcount: seq<nat>)
    requires forall i :: 0 <= i < |cl| ==> cl[i] < MAXCODELEN
    ensures |lcount| == MAXCODELEN && forall l :: 0 <= l < MAXCODELEN ==> lcount[l] == Total(cl, l)
  {
    var counts := new nat[MAXCODELEN](_ => 0);
    for i := 0 to |cl|
      invariant forall l :: 0 <= l < MAXCODELEN ==> counts[l] == Count(cl, l, i)
    {
      counts[cl[i]] := counts[cl[i]] + 1;
    }
    lcount := counts[..];
  }

  lemma LastMinCode(cl: seq<nat>, d: nat)
    ensures MinCode(cl, d, d) == 0
  {
  }

  lemma MinCodeStep(cl: seq<nat>, d: nat, l: nat)
    requires l < d
    ensures MinCode(cl, d, l) == (MinCode(cl, d, l + 1) + Total(cl, l + 1)) / 2
  {
  }

  lemma SymIndexStep(cl: seq<nat>, l: nat)
    requires l > 0
    ensures SymIndex(cl, l) == SymIndex(cl, l - 1) + Total(cl, l - 1)
  {
  }

  /** min_code, from the longest length down. */
  method FirstCodes(cl: seq<nat>, lcount: seq<nat>, maxLen: nat) returns (minCode: seq<nat>)
    requires 1 <= maxLen < MAXCODELEN == |lcount|
    requires forall l :: 0 <= l < MAXCODELEN ==> lcount[l] == Total(cl, l)
    ensures |minCode| == MAXCODELEN
    ensures forall l :: 1 <= l <= maxLen ==> minCode[l] == MinCode(cl, maxLen, l)
  {
    hide Count, Total, MinCode;
    LastMinCode(cl, maxLen);
    var first := new nat[MAXCODELEN](_ => 0);
    first[maxLen] := 0;
    var i := maxLen - 1;
    while i > 0
      invariant 0 <= i < maxLen
      invariant forall l :: i < l <= maxLen ==> first[l] == MinCode(cl, maxLen, l)
    {
      MinCodeStep(cl, maxLen, i);
      first[i] := (first[i + 1] + lcount[i + 1]) / 2;
      i := i - 1;
    }
    minCode := first[..];
  }

  /** symindex, from the shortest length up. */
  method SymbolIndex(cl: seq<nat>, lcount: seq<nat>, minLen: nat, maxLen: nat) returns (symindex: seq<nat>)
    requires 1 <= minLen <= maxLen < MAXCODELEN == |lcount|
    requires forall l :: 0 <= l < MAXCODELEN ==> lcount[l] == Total(cl, l)
    requires forall l :: 0 <= l < minLen ==> Total(cl, l) == 0
    ensures |symindex| == MAXCODELEN
    ensures forall l :: 0 <= l <= maxLen ==> symindex[l] == SymIndex(cl, l)
  {
    hide Count, Total, SymIndex;
    var index := new nat[MAXCODELEN](_ => 0);
    NoShortCodes(cl, minLen);
    index[minLen] := 0;
    for j := minLen + 1 to maxLen + 1
      invariant forall l :: 0 <= l < j ==> index[l] == SymIndex(cl, l)
    {
      SymIndexStep(cl, j);
      index[j] := index[j - 1] + lcount[j - 1];
    }
    symindex := index[..];
  }

  lemma {:induction false} NoShortCodes(cl: seq<nat>, l: nat)
    requires forall k :: 0 <= k < l ==> Total(cl, k) == 0
    ensures forall k :: 0 <= k <= l ==> SymIndex(cl, k) == 0
  {
    hide Total;
    if l > 0 { NoShortCodes(cl, l - 1); }
  }

  lemma {:induction false} NoneOfLength(cl: seq<nat>, l: nat, n: nat)
    requires n <= |cl| && forall i :: 0 <= i < n ==> cl[i] != l
    ensures Count(cl, l, n) == 0
  {
    if n > 0 { NoneOfLength(cl, l, n - 1); }
  }

  /** Codes are issued and items placed among the symbols. */
  method IssueCodes(cl: seq<nat>, minCode: seq<nat>, symindex: seq<nat>, d: nat) returns (words: seq<Word>, symbols: seq<int>)
    requires Lengths(cl, d) && d < MAXCODELEN == |minCode| == |symindex|
    requires forall l :: 1 <= l <= d ==> minCode[l] == MinCode(cl, d, l) && symindex[l] == SymIndex(cl, l)
    ensures |words| == |symbols| == |cl|
    ensures forall i :: 0 <= i < |cl| ==> words[i] == WordOf(cl, d, i)
    ensures forall i :: 0 <= i < |cl| ==> Slot(cl, i) < |cl| && symbols[Slot(cl, i)] == i
  {
    hide SymIndex, MinCode;
    var next := new nat[MAXCODELEN](l requires 0 <= l < MAXCODELEN => minCode[l]);
    var issued := new nat[MAXCODELEN](_ => 0);
    var table := new int[|cl|](_ => 0);
    words := [];
    for i := 0 to |cl|
      invariant |words| == i && forall j :: 0 <= j < i ==> words[j] == WordOf(cl, d, j)
      invariant forall l :: 1 <= l <= d ==> issued[l] == Count(cl, l, i) && next[l] == minCode[l] + issued[l]
      invariant forall j :: 0 <= j < i ==> Slot(cl, j) < |cl| && table[Slot(cl, j)] == j
    {
      var l := cl[i];
      words := words + [Word(l, next[l])];
      RankBelowTotal(cl, i);
      forall j | 0 <= j < i ensures Slot(cl, j) != Slot(cl, i) { SlotsDistinct(cl, j, i); }
      next[l] := next[l] + 1;
      table[symindex[l] + issued[l]] := i;
      issued[l] := issued[l] + 1;
    }
    symbols := table[..];
  }

  /** The part of compute_code_lengths that follows the heap: any usable lengths lead to a
      descriptor block that decodes every item. */
  method AssignCodes(cl: seq<nat>, length: nat, minLen: nat, maxLen: nat) returns (h: HCD, words: seq<Word>)
    requires Usable(cl, maxLen) && 1 <= minLen <= maxLen
    requires forall i :: 0 <= i < |cl| ==> minLen <= cl[i]
    ensures Codes(h, words) && h.length == length && |words| == |cl|
    ensures Table(cl, maxLen, h) && forall i :: 0 <= i < |cl| ==> words[i] == WordOf(cl, maxLen, i)
    ensures forall i :: 0 <= i < |cl| ==> words[i].len == cl[i]
  {
    hide SymIndex, MinCode, Slot, Complete;
    var lcount := CountLengths(cl);
    forall l | 0 <= l < minLen ensures Total(cl, l) == 0 { NoneOfLength(cl, l, |cl|); }
    hide Count;
    var minCode := FirstCodes(cl, lcount, maxLen);
    var symindex := SymbolIndex(cl, lcount, minLen, maxLen);
    var symbols;
    words, symbols := IssueCodes(cl, minCode, symindex, maxLen);
    h := HCD(|cl|, length, maxLen, lcount, symindex, minCode, symbols);
    TableCodes(cl, maxLen, h, words);
  }
}
