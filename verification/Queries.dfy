/** From a regular expression to the corpus positions it matches: cl_regex2id, then the positions of
    the ids found (cl_idlist2freq, cl_idlist2cpos_oldstyle, cl/cdaccess.c). */
module Queries {
  import opened MakeComps
  import opened Sorting
  import opened Postings
  import opened RegexSyntax
  import opened RegoptReaders
  import opened RegoptParse
  import opened RegoptSound
  import opened RegexMatch
  import opened LexiconScan

  // ----- sorting positions

  /** intcompare, over unbounded integers. */
  function IntCompare(i: int, j: int): int {
    i - j
  }

  lemma IntOrder()
    ensures TotalOrder(IntCompare)
  {
  }

  // ----- the positions of a list of ids

  /** The positions of every id on the list, id by id. */
  function Gathered(ids: seq<int>, wordIds: seq<int>): seq<int> {
    if wordIds == [] then []
    else Gathered(ids, wordIds[..|wordIds| - 1]) + Positions(ids, wordIds[|wordIds| - 1])
  }

  /** How often a number is on a list. */
  function Count(s: seq<int>, x: int): nat {
    if s == [] then 0 else Count(s[..|s| - 1], x) + if s[|s| - 1] == x then 1 else 0
  }

  lemma {:induction false} PositionsOnce(ids: seq<int>, id: int, n: nat, p: int)
    requires n <= |ids|
    ensures multiset(PositionsBelow(ids, id, n))[p] == if 0 <= p < n && ids[p] == id then 1 else 0
  {
    if n > 0 { PositionsOnce(ids, id, n - 1, p); }
  }

  /** Each position is gathered as often as its id is on the list. */
  lemma {:induction false} GatheredOften(ids: seq<int>, wordIds: seq<int>, p: int)
    ensures multiset(Gathered(ids, wordIds))[p] == if 0 <= p < |ids| then Count(wordIds, ids[p]) else 0
  {
    if wordIds != [] {
      var last := |wordIds| - 1;
      GatheredOften(ids, wordIds[..last], p);
      PositionsOnce(ids, wordIds[last], |ids|, p);
    }
  }

  predicate Distinct(s: seq<int>) {
    forall i, j :: 0 <= i < j < |s| ==> s[i] != s[j]
  }

  lemma {:induction false} CountDistinct(s: seq<int>, x: int)
    requires Distinct(s)
    ensures Count(s, x) == if x in s then 1 else 0
  {
    if s != [] {
      var last := |s| - 1;
      CountDistinct(s[..last], x);
      assert s == s[..last] + [s[last]];
    }
  }

  /** The positions below `n` whose id is on the list, in ascending order. */
  function MatchesBelow(ids: seq<int>, wordIds: seq<int>, n: nat): (ps: seq<int>)
    requires n <= |ids|
    ensures forall p :: p in ps <==> 0 <= p < n && ids[p] in wordIds
    ensures forall k :: 0 <= k < |ps| ==> ps[k] < n
    ensures forall j, k :: 0 <= j < k < |ps| ==> ps[j] < ps[k]
  {
    if n == 0 then []
    else if ids[n - 1] in wordIds then MatchesBelow(ids, wordIds, n - 1) + [n - 1]
    else MatchesBelow(ids, wordIds, n - 1)
  }

  lemma {:induction false} MatchesOnce(ids: seq<int>, wordIds: seq<int>, n: nat, p: int)
    requires n <= |ids|
    ensures multiset(MatchesBelow(ids, wordIds, n))[p] == if 0 <= p < n && ids[p] in wordIds then 1 else 0
  {
    if n > 0 { MatchesOnce(ids, wordIds, n - 1, p); }
  }

  /** For a list without repetitions, sorting what was gathered gives the matching positions. */
  lemma GatheredMatches(ids: seq<int>, wordIds: seq<int>)
    requires Distinct(wordIds)
    ensures Sort(IntCompare, Gathered(ids, wordIds)) == MatchesBelow(ids, wordIds, |ids|)
  {
    hide Gathered, Sort, Count, Distinct;
    var g, m := Gathered(ids, wordIds), MatchesBelow(ids, wordIds, |ids|);
    forall p: int ensures multiset(g)[p] == multiset(m)[p] {
      GatheredOften(ids, wordIds, p);
      MatchesOnce(ids, wordIds, |ids|, p);
      if 0 <= p < |ids| { CountDistinct(wordIds, ids[p]); }
    }
    IntOrder();
    SortSorts(IntCompare, g);
    SortedUnique(IntCompare, Sort(IntCompare, g), m);
  }

  predicate Known(wordIds: seq<int>, n: nat) {
    forall k :: 0 <= k < |wordIds| ==> 0 <= wordIds[k] < n
  }

  lemma StoredFrequency(a: Attribute, ids: seq<int>, id: int)
    requires Stores(a, ids) && 0 <= id < |a.freqs|
    ensures a.freqs[id] == |Positions(ids, id)|
  {
    hide PositionsBelow;
  }

  /** cl_idlist2freq; -1 for an id out of range. */
  method IdList2Freq(a: Attribute, wordIds: seq<int>, ghost ids: seq<int>) returns (sum: int)
    requires Stores(a, ids)
    ensures sum == if Known(wordIds, |a.freqs|) then |Gathered(ids, wordIds)| else -1
  {
    hide PositionsBelow, Stores, Positions;
    sum := 0;
    for k := 0 to |wordIds|
      invariant Known(wordIds[..k], |a.freqs|) && sum == |Gathered(ids, wordIds[..k])|
    {
      var id := wordIds[k];
      assert wordIds[..k + 1][..k] == wordIds[..k];
      if id < 0 || id >= |a.freqs| { return -1; }
      StoredFrequency(a, ids, id);
      sum := sum + a.freqs[id];
    }
    assert wordIds[..|wordIds|] == wordIds;
  }

  datatype Table = BadIds | Table(positions: seq<int>)

  /** cl_idlist2cpos_oldstyle, with the qsort as `Sort`.  The restrictor list is not used. */
  method IdList2Cpos(a: Attribute, wordIds: seq<int>, sort: bool, ghost ids: seq<int>) returns (r: Table)
    requires Stores(a, ids)
    ensures Known(wordIds, |a.freqs|) ==>
              r == Table(if sort then Sort(IntCompare, Gathered(ids, wordIds)) else Gathered(ids, wordIds))
    ensures !Known(wordIds, |a.freqs|) ==> r == BadIds
  {
    hide Stores, PositionsBelow, Keep, Sort, Known;
    var size := IdList2Freq(a, wordIds, ids);
    if size < 0 { return BadIds; }
    if size == 0 {
      NothingToSort();
      return Table([]);
    }
    SomeCorpus(ids, wordIds);
    var table := new int[size](_ => 0);
    var p := 0;
    for k := 0 to |wordIds|
      invariant p == |Gathered(ids, wordIds[..k])| <= size == table.Length
      invariant table[..p] == Gathered(ids, wordIds[..k])
    {
      assert wordIds[..k + 1][..k] == wordIds[..k];
      GatheredGrows(ids, wordIds, k + 1, |wordIds|);
      assert wordIds[..|wordIds|] == wordIds;
      var start := Id2Cpos(a, wordIds[k], [], ids);
      KnownId(wordIds, |a.freqs|, k);
      KeepAll(Positions(ids, wordIds[k]));
      ghost var filled := table[..p];
      for j := 0 to |start.positions|
        invariant p + |start.positions| <= table.Length
        invariant table[..p] == filled && table[p..p + j] == start.positions[..j]
      {
        table[p + j] := start.positions[j];
        assert table[p..p + j + 1] == table[p..p + j] + [start.positions[j]];
        assert start.positions[..j + 1] == start.positions[..j] + [start.positions[j]];
      }
      ghost var more := |start.positions|;
      assert start.positions[..more] == start.positions;
      assert table[..p + more] == table[..p] + table[p..p + more];
      p := p + |start.positions|;
    }
    assert wordIds[..|wordIds|] == wordIds && table[..] == table[..p];
    return Table(if sort then Sort(IntCompare, table[..]) else table[..]);
  }

  lemma NothingToSort()
    ensures Sort(IntCompare, []) == []
  {
  }

  lemma KnownId(wordIds: seq<int>, n: nat, k: nat)
    requires Known(wordIds, n) && k < |wordIds|
    ensures 0 <= wordIds[k] < n
  {
  }

  lemma {:induction false} SomeCorpus(ids: seq<int>, wordIds: seq<int>)
    requires |Gathered(ids, wordIds)| > 0
    ensures |ids| > 0
  {
    if |Positions(ids, wordIds[|wordIds| - 1])| == 0 {
      SomeCorpus(ids, wordIds[..|wordIds| - 1]);
    } else {
      assert Positions(ids, wordIds[|wordIds| - 1])[0] in Positions(ids, wordIds[|wordIds| - 1]);
    }
  }

  lemma {:induction false} GatheredGrows(ids: seq<int>, wordIds: seq<int>, m: nat, n: nat)
    requires m <= n <= |wordIds|
    ensures |Gathered(ids, wordIds[..m])| <= |Gathered(ids, wordIds[..n])|
  {
    if m < n {
      GatheredGrows(ids, wordIds, m, n - 1);
      assert wordIds[..n][..n - 1] == wordIds[..n - 1];
    }
  }

  /** The positions below `n` whose string satisfies `p`, in ascending order. */
  function PositionsWhere(ids: seq<int>, lexicon: seq<Text>, p: Text -> bool, n: nat): (ps: seq<int>)
    requires n <= |ids| && InRange(ids, |lexicon|)
    ensures forall k :: k in ps <==> 0 <= k < n && p(lexicon[ids[k]])
    ensures forall k :: 0 <= k < |ps| ==> ps[k] < n
    ensures forall j, k :: 0 <= j < k < |ps| ==> ps[j] < ps[k]
  {
    if n == 0 then []
    else if p(lexicon[ids[n - 1]]) then PositionsWhere(ids, lexicon, p, n - 1) + [n - 1]
    else PositionsWhere(ids, lexicon, p, n - 1)
  }

  lemma {:induction false} MatchesAreWhere(ids: seq<int>, lexicon: seq<Text>, p: Text -> bool, n: nat)
    requires n <= |ids| && InRange(ids, |lexicon|)
    ensures MatchesBelow(ids, IdsBelow(lexicon, p, |lexicon|), n) == PositionsWhere(ids, lexicon, p, n)
  {
    if n > 0 { MatchesAreWhere(ids, lexicon, p, n - 1); }
  }

  function Numbers(n: nat): seq<int> {
    seq(n, i => i)
  }

  lemma {:induction false} AllOrNone(lexicon: seq<Text>, p: Text -> bool, n: nat)
    requires n <= |lexicon|
    ensures |IdsBelow(lexicon, p, n)| <= n
    ensures |IdsBelow(lexicon, p, n)| == n <==> forall i :: 0 <= i < n ==> p(lexicon[i])
    ensures |IdsBelow(lexicon, p, n)| == 0 <==> forall i :: 0 <= i < n ==> !p(lexicon[i])
  {
    if n > 0 { AllOrNone(lexicon, p, n - 1); }
  }

  /** If every string satisfies `p`, so does every position. */
  lemma {:induction false} WholeCorpus(ids: seq<int>, lexicon: seq<Text>, p: Text -> bool, n: nat)
    requires n <= |ids| && InRange(ids, |lexicon|) && forall i :: 0 <= i < |lexicon| ==> p(lexicon[i])
    ensures PositionsWhere(ids, lexicon, p, n) == Numbers(n)
  {
    if n > 0 {
      WholeCorpus(ids, lexicon, p, n - 1);
      assert Numbers(n) == Numbers(n - 1) + [n - 1];
    }
  }

  /** The list of initial matches of a query; `start` is empty where the C pointer is null. */
  class Matchlist {
    var start: seq<int>
    var tabsize: int
    var matchesWholeCorpus: bool
    var isInverted: bool

    /** get_matched_corpus_positions: exactly the positions whose string the engine matches, in
        ascending order, through the shortcuts for a regex that matches everything, the optimiser,
        the bitmap, either form of the index, and sorting. */
    method MatchedPositions(att: Attribute, lexicon: seq<Text>, regex: Text, needle: Text -> bool, ghost ids: seq<int>,
                            ghost lang: Lang, ghost a: Alts)
      requires Stores(att, ids) && |att.freqs| == |lexicon|
      requires OkAlts(a) && PAlts(a) == regex && Regular(a) && EndTrusted(a)
      requires forall w :: needle(w) <==> InAlts(lang, a, w)
      requires regex == ".*" ==> forall i :: 0 <= i < |lexicon| ==> needle(lexicon[i])
      modifies this
      ensures InRange(ids, |lexicon|) && start == PositionsWhere(ids, lexicon, needle, |ids|)
      ensures tabsize == |start| && !isInverted
      ensures matchesWholeCorpus && !old(matchesWholeCorpus) ==> start == Numbers(|ids|)
      ensures matchesWholeCorpus ==
              (regex == ".*" || (forall i :: 0 <= i < |lexicon| ==> needle(lexicon[i])) ||
               (old(matchesWholeCorpus) && exists i :: 0 <= i < |lexicon| && needle(lexicon[i])))
    {
      hide OkAlts, PAlts, Regular, EndTrusted, InAlts, Gathered, Sort, MatchesBelow, PositionsWhere, IdsBelow;
      isInverted := false;
      var size, range := att.size, |att.freqs|;
      if regex == ".*" {
        WholeCorpus(ids, lexicon, needle, |ids|);
        start := Copy(size);
        tabsize, matchesWholeCorpus := size, true;
        return;
      }
      var found := Regex2Id(lexicon, regex, needle, lang, a);
      AllOrNone(lexicon, needle, |lexicon|);
      MatchesAreWhere(ids, lexicon, needle, |ids|);
      GatheredMatches(ids, found);
      if |found| == range {
        WholeCorpus(ids, lexicon, needle, |ids|);
        start := Copy(size);
        tabsize, matchesWholeCorpus := size, true;
      } else if |found| > 0 {
        var r := IdList2Cpos(att, found, true, ids);
        start, tabsize := r.positions, |r.positions|;
      } else {
        NothingGathered(ids);
        start, tabsize, matchesWholeCorpus := [], 0, false;
      }
    }

    /** The loop that lists the whole corpus. */
    static method Copy(size: nat) returns (s: seq<int>)
      ensures s == Numbers(size)
    {
      s := [];
      for i := 0 to size
        invariant s == Numbers(i)
      {
        s := s + [i];
      }
    }
  }

  lemma NothingGathered(ids: seq<int>)
    ensures Sort(IntCompare, Gathered(ids, [])) == []
  {
  }
}
