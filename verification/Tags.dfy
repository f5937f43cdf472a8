/** The XML-like tags of concordance output (cqp/concordance.c): the regions that start or end at a
    position are bubble-sorted, start tags printed in that order before the token and end tags in
    reverse order behind it. */
module Tags {

  /** A region of the s-attribute with number `attr`; both ends belong to it. */
  datatype Region = Region(attr: nat, start: int, end: int)

  // ----- sort_s_att_regions

  /** The comparison that makes the sort swap two neighbours. */
  predicate Wrong(a: Region, b: Region)
  {
    a.end < b.end || (a.end == b.end && a.start > b.start)
  }

  predicate SameKey(a: Region, b: Region)
  {
    a.end == b.end && a.start == b.start
  }

  function WrongWith(rs: seq<Region>, x: int, s: seq<int>): nat
    requires 0 <= x < |rs| && Indices(rs, s)
  {
    if s == [] then 0 else (if Wrong(rs[x], rs[s[0]]) then 1 else 0) + WrongWith(rs, x, s[1..])
  }

  predicate Indices(rs: seq<Region>, s: seq<int>)
  {
    forall i :: 0 <= i < |s| ==> 0 <= s[i] < |rs|
  }

  /** The pairs in wrong order; the sort removes one with each swap. */
  function Inversions(rs: seq<Region>, s: seq<int>): nat
    requires Indices(rs, s)
  {
    if s == [] then 0 else WrongWith(rs, s[0], s[1..]) + Inversions(rs, s[1..])
  }

  function Swapped(s: seq<int>, i: nat): (t: seq<int>)
    requires i + 1 < |s|
    ensures |t| == |s|
  {
    s[i := s[i + 1]][i + 1 := s[i]]
  }

  lemma {:induction false} WrongWithSwapped(rs: seq<Region>, x: int, s: seq<int>, i: nat)
    requires 0 <= x < |rs| && Indices(rs, s) && i + 1 < |s|
    ensures WrongWith(rs, x, Swapped(s, i)) == WrongWith(rs, x, s)
  {
    var t := Swapped(s, i);
    if i == 0 {
      assert s[1..][1..] == t[1..][1..];
      assert WrongWith(rs, x, s) == (if Wrong(rs[x], rs[s[0]]) then 1 else 0) + WrongWith(rs, x, s[1..]);
      assert WrongWith(rs, x, t) == (if Wrong(rs[x], rs[t[0]]) then 1 else 0) + WrongWith(rs, x, t[1..]);
    } else {
      assert t[1..] == Swapped(s[1..], i - 1);
      WrongWithSwapped(rs, x, s[1..], i - 1);
    }
  }

  lemma {:induction false} SwapRemovesInversion(rs: seq<Region>, s: seq<int>, i: nat)
    requires Indices(rs, s) && i + 1 < |s| && Wrong(rs[s[i]], rs[s[i + 1]])
    ensures Inversions(rs, Swapped(s, i)) == Inversions(rs, s) - 1
  {
    var t := Swapped(s, i);
    if i == 0 {
      var rest := s[2..];
      assert s[1..] == [s[1]] + rest && t[1..] == [s[0]] + rest;
      assert s[1..][1..] == rest && t[1..][1..] == rest;
      assert Inversions(rs, s[1..]) == WrongWith(rs, s[1], rest) + Inversions(rs, rest);
      assert Inversions(rs, t[1..]) == WrongWith(rs, s[0], rest) + Inversions(rs, rest);
    } else {
      assert t[1..] == Swapped(s[1..], i - 1);
      SwapRemovesInversion(rs, s[1..], i - 1);
      WrongWithSwapped(rs, s[0], s[1..], i - 1);
    }
  }

  predicate Permutation(s: seq<int>, n: nat)
  {
    |s| == n && (forall i :: 0 <= i < n ==> 0 <= s[i] < n) &&
    (forall i, j :: 0 <= i < j < n ==> s[i] != s[j]) && forall k :: 0 <= k < n ==> k in s
  }

  /** Regions with the same bounds keep their order. */
  predicate Stable(rs: seq<Region>, s: seq<int>)
    requires Indices(rs, s)
  {
    forall i, j :: 0 <= i < j < |s| && SameKey(rs[s[i]], rs[s[j]]) ==> s[i] < s[j]
  }

  predicate InOrder(rs: seq<Region>, s: seq<int>)
    requires Indices(rs, s)
  {
    forall i, j :: 0 <= i < j < |s| ==> !Wrong(rs[s[i]], rs[s[j]])
  }

  lemma {:induction false} NeighboursSuffice(rs: seq<Region>, s: seq<int>, i: nat, j: nat)
    requires Indices(rs, s) && i < j < |s|
    requires forall k :: 0 <= k < |s| - 1 ==> !Wrong(rs[s[k]], rs[s[k + 1]])
    ensures !Wrong(rs[s[i]], rs[s[j]])
  {
    if i + 1 < j {
      NeighboursSuffice(rs, s, i, j - 1);
      assert !Wrong(rs[s[j - 1]], rs[s[j - 1 + 1]]);
    }
  }

  /** The bubble sort terminates with the stable order, on an array of indices. */
  method SortRegions(rs: seq<Region>, index: array<int>)
    requires index.Length == |rs|
    modifies index
    ensures Permutation(index[..], |rs|) && InOrder(rs, index[..]) && Stable(rs, index[..])
  {
    var n := |rs|;
    for i := 0 to n
      invariant forall k :: 0 <= k < i ==> index[k] == k
    {
      index[i] := i;
    }
    forall k | 0 <= k < n ensures k in index[..] { assert index[..][k] == k; }
    var modified := true;
    while modified
      invariant Permutation(index[..], n) && Stable(rs, index[..])
      invariant !modified ==> forall k :: 0 <= k < n - 1 ==> !Wrong(rs[index[k]], rs[index[k + 1]])
      decreases Inversions(rs, index[..]), modified
    {
      modified := BubblePass(rs, index);
    }
    forall i, j | 0 <= i < j < n ensures !Wrong(rs[index[i]], rs[index[j]]) {
      NeighboursSuffice(rs, index[..], i, j);
    }
  }

  /** One sweep of neighbour swaps. */
  method BubblePass(rs: seq<Region>, index: array<int>) returns (modified: bool)
    requires index.Length == |rs| && Permutation(index[..], |rs|) && Stable(rs, index[..])
    modifies index
    ensures Permutation(index[..], |rs|) && Stable(rs, index[..])
    ensures modified ==> Inversions(rs, index[..]) < Inversions(rs, old(index[..]))
    ensures !modified ==> index[..] == old(index[..])
    ensures !modified ==> forall k :: 0 <= k < |rs| - 1 ==> !Wrong(rs[index[k]], rs[index[k + 1]])
  {
    hide Inversions;
    modified := false;
    var i := 0;
    while i < |rs| - 1
      invariant 0 <= i && (i <= |rs| - 1 || i == 0)
      invariant Permutation(index[..], |rs|) && Stable(rs, index[..])
      invariant if modified then Inversions(rs, index[..]) < Inversions(rs, old(index[..])) else index[..] == old(index[..])
      invariant !modified ==> forall k :: 0 <= k < i ==> !Wrong(rs[index[k]], rs[index[k + 1]])
    {
      var a, b := rs[index[i]], rs[index[i + 1]];
      if a.end < b.end || (a.end == b.end && a.start > b.start) {
        ghost var s := index[..];
        var temp := index[i];
        index[i] := index[i + 1];
        index[i + 1] := temp;
        modified := true;
        assert index[..] == Swapped(s, i);
        SwapRemovesInversion(rs, s, i);
        SwapKeeps(rs, s, i);
      }
      i := i + 1;
    }
  }

  lemma SwapKeeps(rs: seq<Region>, s: seq<int>, i: nat)
    requires Permutation(s, |rs|) && Stable(rs, s) && i + 1 < |s| && Wrong(rs[s[i]], rs[s[i + 1]])
    ensures Permutation(Swapped(s, i), |rs|) && Stable(rs, Swapped(s, i))
  {
    var t := Swapped(s, i);
    forall k | 0 <= k < |rs| ensures k in t {
      assert k in s;
      var j :| 0 <= j < |s| && s[j] == k;
      assert t[if j == i then i + 1 else if j == i + 1 then i else j] == k;
    }
  }

  // ----- the order of the tags at one position

  /** The order that the stable sort establishes when the regions come in attribute order. */
  predicate Before(a: Region, b: Region)
  {
    a.end > b.end || (a.end == b.end && (a.start < b.start || (a.start == b.start && a.attr < b.attr)))
  }

  predicate Ordered(s: seq<Region>)
  {
    forall i, j :: 0 <= i < j < |s| ==> Before(s[i], s[j])
  }

  lemma {:induction false} OrderedUnique(s: seq<Region>, t: seq<Region>)
    requires Ordered(s) && Ordered(t) && forall r :: r in s <==> r in t
    ensures s == t
  {
    assert (s != [] ==> s[0] in t) && (t != [] ==> t[0] in s);
    if s != [] && t != [] {
      FirstIsLeast(s, t[0]);
      FirstIsLeast(t, s[0]);
      assert s[0] in t && t[0] in s;
      forall r ensures r in s[1..] <==> r in t[1..] {
        if r in s[1..] { NotFirst(s, r); assert r in t; RestHas(t, r); }
        if r in t[1..] { NotFirst(t, r); assert r in s; RestHas(s, r); }
      }
      OrderedUnique(s[1..], t[1..]);
      assert s == [s[0]] + s[1..] && t == [t[0]] + t[1..];
    }
  }

  lemma FirstIsLeast(s: seq<Region>, r: Region)
    requires Ordered(s) && s != []
    ensures r in s && r != s[0] ==> Before(s[0], r)
  {
  }

  lemma NotFirst(s: seq<Region>, r: Region)
    requires Ordered(s) && s != [] && r in s[1..]
    ensures r in s && r != s[0]
  {
    var k :| 0 <= k < |s| - 1 && s[1..][k] == r;
    assert s[k + 1] == r && Before(s[0], s[k + 1]);
  }

  lemma RestHas(s: seq<Region>, r: Region)
    requires s != [] && r in s && r != s[0]
    ensures r in s[1..]
  {
    var k :| 0 <= k < |s| && s[k] == r;
    assert s[1..][k - 1] == r;
  }

  // ----- emitting and matching

  datatype Event = Open(region: Region) | Token(cpos: int) | Close(region: Region)

  function Opens(s: seq<Region>, p: int): seq<Event>
  {
    if s == [] then [] else (if s[0].start == p then [Open(s[0])] else []) + Opens(s[1..], p)
  }

  function Closes(s: seq<Region>, p: int): seq<Event>
  {
    if s == [] then [] else Closes(s[1..], p) + if s[0].end == p then [Close(s[0])] else []
  }

  /** What get_position_values prints for a position with the sorted regions `s`. */
  function TagsAt(s: seq<Region>, p: int): seq<Event>
  {
    Opens(s, p) + [Token(p)] + Closes(s, p)
  }

  datatype Run = Mismatch | Balanced(open: seq<Region>)

  /** Reading a bracket word: an end tag must close the innermost open region. */
  function Match(open: seq<Region>, es: seq<Event>): Run
    decreases |es|
  {
    if es == [] then Balanced(open)
    else
      match es[0]
      case Open(r) => Match(open + [r], es[1..])
      case Token(_) => Match(open, es[1..])
      case Close(r) =>
        if open != [] && open[|open| - 1] == r then Match(open[..|open| - 1], es[1..]) else Mismatch
  }

  lemma {:induction false} MatchAppend(open: seq<Region>, a: seq<Event>, b: seq<Event>)
    ensures Match(open, a + b) == match Match(open, a) case Mismatch => Mismatch case Balanced(o) => Match(o, b)
    decreases |a|
  {
    if a == [] {
      assert a + b == b;
    } else {
      assert (a + b)[1..] == a[1..] + b;
      match a[0]
      case Open(r) => MatchAppend(open + [r], a[1..], b);
      case Token(_) => MatchAppend(open, a[1..], b);
      case Close(r) => if open != [] { MatchAppend(open[..|open| - 1], a[1..], b); }
    }
  }

  function Starting(s: seq<Region>, p: int): seq<Region>
  {
    if s == [] then [] else (if s[0].start == p then [s[0]] else []) + Starting(s[1..], p)
  }

  function Ending(s: seq<Region>, p: int): seq<Region>
  {
    if s == [] then [] else (if s[0].end == p then [s[0]] else []) + Ending(s[1..], p)
  }

  lemma {:induction false} FilterFacts(s: seq<Region>, p: int)
    requires Ordered(s)
    ensures Ordered(Starting(s, p)) && Ordered(Ending(s, p))
    ensures forall r :: r in Starting(s, p) <==> r in s && r.start == p
    ensures forall r :: r in Ending(s, p) <==> r in s && r.end == p
  {
    if s != [] {
      FilterFacts(s[1..], p);
      assert s == [s[0]] + s[1..];
      forall r | r in s[1..] ensures Before(s[0], r) { NotFirst(s, r); }
    }
  }

  lemma {:induction false} OpensPush(open: seq<Region>, s: seq<Region>, p: int)
    ensures Match(open, Opens(s, p)) == Balanced(open + Starting(s, p))
    decreases |s|
  {
    if s == [] {
      assert open + [] == open;
    } else if s[0].start == p {
      OpensPush(open + [s[0]], s[1..], p);
      assert open + [s[0]] + Starting(s[1..], p) == open + Starting(s, p);
      assert Opens(s, p)[1..] == Opens(s[1..], p);
    } else {
      OpensPush(open, s[1..], p);
      assert Opens(s, p) == Opens(s[1..], p) && Starting(s, p) == Starting(s[1..], p);
    }
  }

  lemma {:induction false} ClosesPop(open: seq<Region>, s: seq<Region>, p: int)
    ensures Match(open + Ending(s, p), Closes(s, p)) == Balanced(open)
    decreases |s|
  {
    if s == [] {
      assert open + [] == open;
    } else if s[0].end == p {
      var rest := Ending(s[1..], p);
      assert open + Ending(s, p) == open + [s[0]] + rest;
      ClosesPop(open + [s[0]], s[1..], p);
      MatchAppend(open + Ending(s, p), Closes(s[1..], p), [Close(s[0])]);
      assert (open + [s[0]])[..|open|] == open;
      assert [Close(s[0])][1..] == [];
      assert Match(open + [s[0]], [Close(s[0])]) == Match(open, []);
    } else {
      ClosesPop(open, s[1..], p);
      assert Closes(s, p) == Closes(s[1..], p) && Ending(s, p) == Ending(s[1..], p);
    }
  }

  // ----- the regions of a corpus

  /** `rs` lists all regions; `n` is the corpus size. */
  predicate Nested(a: Region, b: Region)
  {
    a.end < b.start || b.end < a.start || (a.start <= b.start && b.end <= a.end) || (b.start <= a.start && a.end <= b.end)
  }

  ghost predicate WellNested(all: set<Region>, n: nat)
  {
    (forall r :: r in all ==> 0 <= r.start <= r.end < n) &&
    (forall a, b :: a in all && b in all ==> Nested(a, b)) &&
    forall a, b :: a in all && b in all && a != b && a.attr == b.attr ==> a.end < b.start || b.end < a.start
  }

  /** The sorted regions that start or end at `p`. */
  ghost predicate BoundaryList(all: set<Region>, p: int, s: seq<Region>)
  {
    Ordered(s) && forall r :: r in s <==> r in all && (r.start == p || r.end == p)
  }

  /** The regions still open behind position `p`, outermost first. */
  ghost predicate OpenList(all: set<Region>, p: int, s: seq<Region>)
  {
    Ordered(s) && forall r :: r in s <==> r in all && r.start <= p < r.end
  }

  /** All regions around `p`, which is what is open while the token is printed. */
  ghost predicate AroundList(all: set<Region>, p: int, s: seq<Region>)
  {
    Ordered(s) && forall r :: r in s <==> r in all && r.start <= p <= r.end
  }

  lemma AfterOpening(all: set<Region>, n: nat, p: int, open: seq<Region>, s: seq<Region>)
    requires WellNested(all, n) && OpenList(all, p - 1, open) && BoundaryList(all, p, s)
    ensures AroundList(all, p, open + Starting(s, p))
  {
    FilterFacts(s, p);
    var t := Starting(s, p);
    forall i, j | 0 <= i < j < |open + t| ensures Before((open + t)[i], (open + t)[j]) {
      if i < |open| <= j {
        var a, b := open[i], t[j - |open|];
        assert a in open && b in t;
        assert Nested(a, b);
      }
    }
  }

  lemma {:induction false} SplitByEnd(s: seq<Region>, p: int)
    requires Ordered(s) && forall r :: r in s ==> r.end >= p
    ensures var k := |s| - |Ending(s, p)|;
            0 <= k && s == s[..k] + Ending(s, p) && forall r :: r in s[..k] <==> r in s && r.end > p
  {
    hide Ordered, Ending;
    EndingStep(s, p);
    if s != [] {
      var t := s[1..];
      LaterEnds(s);
      SplitByEnd(t, p);
      var k := |t| - |Ending(t, p)|;
      assert s[0] in s && s == [s[0]] + t;
      assert k > 0 ==> t[..k][0] in t[..k];
      if s[0].end == p {
        assert t == Ending(t, p) && s[..0] == [];
      } else {
        assert s[..k + 1] == [s[0]] + t[..k];
        assert s == s[..k + 1] + Ending(t, p);
      }
    }
  }

  lemma EndingStep(s: seq<Region>, p: int)
    ensures Ending(s, p) == if s == [] then [] else (if s[0].end == p then [s[0]] else []) + Ending(s[1..], p)
  {
  }

  lemma LaterEnds(s: seq<Region>)
    requires Ordered(s) && s != []
    ensures Ordered(s[1..]) && forall r :: r in s[1..] ==> r in s && r.end <= s[0].end
  {
    forall r | r in s[1..] ensures r in s && Before(s[0], r) { NotFirst(s, r); }
  }

  /** At every position the end tags close exactly the innermost open regions. */
  lemma PositionStep(all: set<Region>, n: nat, p: int, open: seq<Region>, s: seq<Region>) returns (open': seq<Region>)
    requires WellNested(all, n) && OpenList(all, p - 1, open) && BoundaryList(all, p, s)
    ensures OpenList(all, p, open') && Match(open, TagsAt(s, p)) == Balanced(open')
  {
    hide WellNested, Match, Opens, Closes, Starting, Ending, Ordered;
    AfterOpening(all, n, p, open, s);
    var around := open + Starting(s, p);
    FilterFacts(around, p);
    FilterFacts(s, p);
    StartsBeforeEnd(all, n);
    OrderedUnique(Ending(around, p), Ending(s, p));
    SplitByEnd(around, p);
    var k := |around| - |Ending(around, p)|;
    open' := around[..k];
    OrderedPrefix(around, k);
    OpensPush(open, s, p);
    ClosesPop(open', s, p);
    TokenIgnored(around, p, Closes(s, p));
    MatchAppend(open, Opens(s, p), [Token(p)] + Closes(s, p));
    assert TagsAt(s, p) == Opens(s, p) + ([Token(p)] + Closes(s, p));
  }

  lemma OrderedPrefix(s: seq<Region>, k: nat)
    requires Ordered(s) && k <= |s|
    ensures Ordered(s[..k])
  {
  }

  lemma StartsBeforeEnd(all: set<Region>, n: nat)
    requires WellNested(all, n)
    ensures forall r :: r in all ==> r.start <= r.end
  {
  }

  lemma TokenIgnored(open: seq<Region>, p: int, es: seq<Event>)
    ensures Match(open, [Token(p)] + es) == Match(open, es)
  {
    assert ([Token(p)] + es)[1..] == es;
  }

  // ----- get_position_values

  /** The s-attributes of a corpus, each with its regions. */
  ghost function AllRegions(atts: seq<seq<Region>>): set<Region>
  {
    set a, k | 0 <= a < |atts| && 0 <= k < |atts[a]| :: atts[a][k]
  }

  predicate Numbered(atts: seq<seq<Region>>)
  {
    forall a, k :: 0 <= a < |atts| && 0 <= k < |atts[a]| ==> atts[a][k].attr == a
  }

  /** cl_cpos2struc: the region of an attribute around a position. */
  function RegionAt(rs: seq<Region>, p: int): (k: int)
    ensures -1 <= k < |rs|
    ensures k >= 0 ==> rs[k].start <= p <= rs[k].end
    ensures k < 0 ==> forall j :: 0 <= j < |rs| ==> !(rs[j].start <= p <= rs[j].end)
  {
    if rs == [] then -1
    else if rs[|rs| - 1].start <= p <= rs[|rs| - 1].end then |rs| - 1
    else RegionAt(rs[..|rs| - 1], p)
  }

  /** Collects the regions that start or end at a position, in attribute order. */
  method CollectRegions(atts: seq<seq<Region>>, p: int, n: nat) returns (list: seq<Region>)
    requires Numbered(atts) && WellNested(AllRegions(atts), n)
    ensures forall i, j :: 0 <= i < j < |list| ==> list[i].attr < list[j].attr
    ensures forall r :: r in list <==> r in AllRegions(atts) && (r.start == p || r.end == p)
  {
    list := [];
    for a := 0 to |atts|
      invariant forall i, j :: 0 <= i < j < |list| ==> list[i].attr < list[j].attr
      invariant forall r :: r in list <==> r in AllRegions(atts) && r.attr < a && (r.start == p || r.end == p)
    {
      var k := RegionAt(atts[a], p);
      ghost var before := list;
      if k >= 0 && (p == atts[a][k].start || p == atts[a][k].end) {
        list := list + [atts[a][k]];
      }
      Collected(atts, a, p, n, k, before, list);
    }
  }

  lemma Collected(atts: seq<seq<Region>>, a: nat, p: int, n: nat, k: int, before: seq<Region>, list: seq<Region>)
    requires Numbered(atts) && WellNested(AllRegions(atts), n) && a < |atts| && k == RegionAt(atts[a], p)
    requires forall i, j :: 0 <= i < j < |before| ==> before[i].attr < before[j].attr
    requires forall r :: r in before <==> r in AllRegions(atts) && r.attr < a && (r.start == p || r.end == p)
    requires list == before + if k >= 0 && (p == atts[a][k].start || p == atts[a][k].end) then [atts[a][k]] else []
    ensures forall i, j :: 0 <= i < j < |list| ==> list[i].attr < list[j].attr
    ensures forall r :: r in list <==> r in AllRegions(atts) && r.attr < a + 1 && (r.start == p || r.end == p)
  {
    forall r | r in before ensures r.attr < a {}
    if k >= 0 { assert atts[a][k] in AllRegions(atts) && atts[a][k].attr == a; }
    forall r | r in AllRegions(atts) && r.attr == a && (r.start == p || r.end == p)
      ensures k >= 0 && r == atts[a][k]
    {
      var b, j :| 0 <= b < |atts| && 0 <= j < |atts[b]| && atts[b][j] == r;
      assert b == a && r.start <= r.end;
      assert k >= 0;
    }
  }

  /** The tags and the token of one position. */
  method PositionValues(atts: seq<seq<Region>>, p: int, n: nat) returns (es: seq<Event>, ghost s: seq<Region>)
    requires Numbered(atts) && WellNested(AllRegions(atts), n)
    ensures BoundaryList(AllRegions(atts), p, s) && es == TagsAt(s, p)
  {
    hide WellNested, AllRegions, Permutation, InOrder, Stable, Ordered;
    var list := CollectRegions(atts, p, n);
    var index := new int[|list|];
    SortRegions(list, index);
    ghost var order := index[..];
    IndicesOk(order, |list|);
    s := seq(|list|, i requires 0 <= i < |list| => list[order[i]]);
    SortedIsBoundary(list, order, s);
    var opens := PrintOpens(list, index, p, s);
    var closes := PrintCloses(list, index, p, s);
    es := opens + [Token(p)] + closes;
  }

  lemma IndicesOk(s: seq<int>, n: nat)
    requires Permutation(s, n)
    ensures |s| == n && forall i :: 0 <= i < n ==> 0 <= s[i] < n
  {
  }

  /** The loop over the start tags. */
  method PrintOpens(list: seq<Region>, index: array<int>, p: int, ghost s: seq<Region>) returns (es: seq<Event>)
    requires |s| == |list| == index.Length
    requires forall j :: 0 <= j < |list| ==> 0 <= index[j] < |list| && s[j] == list[index[j]]
    ensures es == Opens(s, p)
  {
    hide Opens;
    es := [];
    assert s[0..] == s;
    for i := 0 to |list|
      invariant es + Opens(s[i..], p) == Opens(s, p)
    {
      var region := list[index[i]];
      OpensStep(s, i, p);
      if region.start == p { es := es + [Open(region)]; }
    }
    OpensEmpty(s[|list|..], p);
  }

  lemma OpensEmpty(s: seq<Region>, p: int)
    requires s == []
    ensures Opens(s, p) == []
  {
  }

  lemma OpensStep(s: seq<Region>, i: nat, p: int)
    requires i < |s|
    ensures Opens(s[i..], p) == (if s[i].start == p then [Open(s[i])] else []) + Opens(s[i + 1..], p)
  {
    assert s[i..][1..] == s[i + 1..];
  }

  lemma ClosesEmpty(s: seq<Region>, p: int)
    requires s == []
    ensures Closes(s, p) == []
  {
  }

  lemma ClosesStep(s: seq<Region>, i: nat, p: int)
    requires i < |s|
    ensures Closes(s[i..], p) == Closes(s[i + 1..], p) + if s[i].end == p then [Close(s[i])] else []
  {
    assert s[i..][1..] == s[i + 1..];
  }

  /** The loop over the end tags, from the back. */
  method PrintCloses(list: seq<Region>, index: array<int>, p: int, ghost s: seq<Region>) returns (es: seq<Event>)
    requires |s| == |list| == index.Length
    requires forall j :: 0 <= j < |list| ==> 0 <= index[j] < |list| && s[j] == list[index[j]]
    ensures es == Closes(s, p)
  {
    hide Closes;
    es := [];
    ClosesEmpty(s[|list|..], p);
    var i := |list| - 1;
    while i >= 0
      invariant -1 <= i < |list| && es == Closes(s[i + 1..], p)
    {
      var region := list[index[i]];
      ClosesStep(s, i, p);
      if region.end == p { es := es + [Close(region)]; }
      i := i - 1;
    }
    assert s[0..] == s;
  }

  lemma SortedIsBoundary(list: seq<Region>, index: seq<int>, s: seq<Region>)
    requires Permutation(index, |list|) && InOrder(list, index) && Stable(list, index)
    requires |s| == |list| && forall i :: 0 <= i < |s| ==> s[i] == list[index[i]]
    requires forall i, j :: 0 <= i < j < |list| ==> list[i].attr < list[j].attr
    ensures Ordered(s) && forall r :: r in s <==> r in list
  {
    forall i, j | 0 <= i < j < |s| ensures Before(s[i], s[j]) {
      assert !Wrong(list[index[i]], list[index[j]]);
      if SameKey(list[index[i]], list[index[j]]) { assert index[i] < index[j]; }
    }
    forall k | 0 <= k < |list| ensures list[k] in s {
      assert k in index;
      var i :| 0 <= i < |index| && index[i] == k;
      assert s[i] == list[k];
    }
  }

  /** The output for the first `n` positions; `ss[p]` are the sorted regions at position `p`. */
  function AllTags(ss: seq<seq<Region>>, n: nat): seq<Event>
    requires n <= |ss|
  {
    if n == 0 then [] else AllTags(ss, n - 1) + TagsAt(ss[n - 1], n - 1)
  }

  function Count<T(==)>(s: seq<T>, x: T): nat {
    if s == [] then 0 else (if s[0] == x then 1 else 0) + Count(s[1..], x)
  }

  lemma {:induction false} CountAppend<T>(a: seq<T>, b: seq<T>, x: T)
    ensures Count(a + b, x) == Count(a, x) + Count(b, x)
  {
    if a == [] {
      assert a + b == b;
    } else {
      assert (a + b)[1..] == a[1..] + b;
      CountAppend(a[1..], b, x);
    }
  }

  /** How often an event should be printed: every region is opened once and closed once, and every
      position has its token once. */
  function Due(all: set<Region>, n: nat, e: Event): nat {
    match e
    case Open(r) => if r in all then 1 else 0
    case Close(r) => if r in all then 1 else 0
    case Token(q) => if 0 <= q < n then 1 else 0
  }

  /** The position an event belongs to. */
  function Place(e: Event): int {
    match e case Open(r) => r.start case Close(r) => r.end case Token(q) => q
  }

  lemma {:induction false} OrderedOnce(s: seq<Region>, r: Region)
    requires Ordered(s)
    ensures Count(s, r) == if r in s then 1 else 0
  {
    if s != [] {
      OrderedOnce(s[1..], r);
      assert s == [s[0]] + s[1..];
      if s[0] in s[1..] { NotFirst(s, s[0]); }
    }
  }

  lemma {:induction false} OpenCounts(s: seq<Region>, p: int, e: Event)
    ensures Count(Opens(s, p), e) == if e.Open? && e.region.start == p then Count(s, e.region) else 0
  {
    if s != [] {
      OpenCounts(s[1..], p, e);
      var first := if s[0].start == p then [Open(s[0])] else [];
      CountAppend(first, Opens(s[1..], p), e);
      assert first != [] ==> first[1..] == [];
    }
  }

  lemma {:induction false} CloseCounts(s: seq<Region>, p: int, e: Event)
    ensures Count(Closes(s, p), e) == if e.Close? && e.region.end == p then Count(s, e.region) else 0
  {
    if s != [] {
      CloseCounts(s[1..], p, e);
      var last := if s[0].end == p then [Close(s[0])] else [];
      CountAppend(Closes(s[1..], p), last, e);
      assert last != [] ==> last[1..] == [];
    }
  }

  lemma TagCounts(all: set<Region>, s: seq<Region>, p: nat, e: Event)
    requires BoundaryList(all, p, s)
    ensures Count(TagsAt(s, p), e) == if Place(e) == p then Due(all, p + 1, e) else 0
  {
    OpenCounts(s, p, e);
    CloseCounts(s, p, e);
    CountAppend(Opens(s, p) + [Token(p)], Closes(s, p), e);
    CountAppend(Opens(s, p), [Token(p)], e);
    assert [Token(p)][1..] == [];
    if !e.Token? { OrderedOnce(s, e.region); }
  }

  lemma {:induction false} EventCounts(all: set<Region>, ss: seq<seq<Region>>, n: nat, e: Event)
    requires n <= |ss| && forall p :: 0 <= p < n ==> BoundaryList(all, p, ss[p])
    ensures Count(AllTags(ss, n), e) == if 0 <= Place(e) < n then Due(all, n, e) else 0
  {
    hide BoundaryList, TagsAt, Count;
    if n > 0 {
      EventCounts(all, ss, n - 1, e);
      TagCounts(all, ss[n - 1], n - 1, e);
      CountAppend(AllTags(ss, n - 1), TagsAt(ss[n - 1], n - 1), e);
    } else {
      NothingCounted(e);
    }
  }

  lemma NothingCounted(e: Event)
    ensures Count([], e) == 0
  {
  }

  lemma PrintedOnce(all: set<Region>, ss: seq<seq<Region>>, n: nat, e: Event)
    requires WellNested(all, n) && n == |ss| && forall p :: 0 <= p < n ==> BoundaryList(all, p, ss[p])
    ensures Count(AllTags(ss, n), e) == Due(all, n, e)
  {
    hide BoundaryList, AllTags, Count;
    EventCounts(all, ss, n, e);
  }

  // ----- where the tokens stand

  /** After `before` exactly the regions around `q` are open, outer ones before inner ones, and for the
      same extent in attribute order. */
  ghost predicate InsideAll(all: set<Region>, before: seq<Event>, q: int)
  {
    exists o :: Match([], before) == Balanced(o) && (forall r :: r in o <==> r in all && r.start <= q <= r.end) &&
                forall i, j :: 0 <= i < j < |o| ==> Outside(o[i], o[j])
  }

  predicate Outside(a: Region, b: Region)
  {
    a.start <= b.start && b.end <= a.end && (a.start == b.start && a.end == b.end ==> a.attr < b.attr)
  }

  /** Every token of `es` stands inside exactly the regions around its position, and tokens are in order. */
  ghost predicate TokensInside(all: set<Region>, es: seq<Event>)
  {
    (forall k :: 0 <= k < |es| && es[k].Token? ==> InsideAll(all, es[..k], es[k].cpos)) &&
    forall j, k :: 0 <= j < k < |es| && es[j].Token? && es[k].Token? ==> es[j].cpos < es[k].cpos
  }

  lemma {:induction false} OnlyTags(s: seq<Region>, p: int)
    ensures forall i :: 0 <= i < |Opens(s, p)| ==> Opens(s, p)[i].Open?
    ensures forall i :: 0 <= i < |Closes(s, p)| ==> Closes(s, p)[i].Close?
  {
    if s != [] { OnlyTags(s[1..], p); }
  }

  lemma AroundIsNested(all: set<Region>, n: nat, p: int, o: seq<Region>)
    requires WellNested(all, n) && AroundList(all, p, o)
    ensures forall i, j :: 0 <= i < j < |o| ==> Outside(o[i], o[j])
  {
    forall i, j | 0 <= i < j < |o| ensures Outside(o[i], o[j]) {
      assert o[i] in o && o[j] in o && Before(o[i], o[j]);
      assert Nested(o[i], o[j]);
    }
  }

  /** The token of a position is printed when all start tags are printed and no end tag is. */
  lemma TokenPlace(all: set<Region>, n: nat, p: int, open: seq<Region>, s: seq<Region>, before: seq<Event>, k: nat)
    requires WellNested(all, n) && OpenList(all, p - 1, open) && BoundaryList(all, p, s)
    requires Match([], before) == Balanced(open) && k < |TagsAt(s, p)| && TagsAt(s, p)[k].Token?
    ensures TagsAt(s, p)[k] == Token(p) && k == |Opens(s, p)| && InsideAll(all, before + TagsAt(s, p)[..k], p)
  {
    hide WellNested, Match, Opens, Closes, Starting, Ordered;
    var opens, closes := Opens(s, p), Closes(s, p);
    var es := TagsAt(s, p);
    OnlyTags(s, p);
    assert es[..k] == opens;
    OpensPush(open, s, p);
    MatchAppend([], before, opens);
    AfterOpening(all, n, p, open, s);
    AroundIsNested(all, n, p, open + Starting(s, p));
  }

  lemma TokensStay(all: set<Region>, n: nat, p: int, open: seq<Region>, s: seq<Region>, before: seq<Event>)
    requires WellNested(all, n) && OpenList(all, p - 1, open) && BoundaryList(all, p, s)
    requires Match([], before) == Balanced(open) && TokensInside(all, before)
    requires forall k :: 0 <= k < |before| && before[k].Token? ==> before[k].cpos < p
    ensures TokensInside(all, before + TagsAt(s, p))
    ensures forall k :: 0 <= k < |before + TagsAt(s, p)| && (before + TagsAt(s, p))[k].Token? ==>
              (before + TagsAt(s, p))[k].cpos < p + 1
  {
    hide WellNested, Match, OpenList, BoundaryList, InsideAll, TagsAt;
    var here := TagsAt(s, p);
    var es := before + here;
    forall k | |before| <= k < |es| && es[k].Token?
      ensures es[k].cpos == p && k == |before| + |Opens(s, p)| && InsideAll(all, es[..k], p)
    {
      var h := k - |before|;
      TokenPlace(all, n, p, open, s, before, h);
      assert es[..k] == before + here[..h];
    }
    forall k | 0 <= k < |es| && es[k].Token? ensures InsideAll(all, es[..k], es[k].cpos) {
      if k < |before| { assert es[..k] == before[..k]; }
    }
  }

  /** Over all positions of the corpus the tags form a correctly matched bracket word: position by
      position the start tags of the regions that start there, the token, and the end tags of those
      that end there, so that every region is opened and closed exactly once, and around exactly its tokens. */
  method PrintAll(atts: seq<seq<Region>>, n: nat) returns (es: seq<Event>, ghost ss: seq<seq<Region>>)
    requires Numbered(atts) && WellNested(AllRegions(atts), n)
    ensures Match([], es) == Balanced([])
    ensures |ss| == n && (forall p :: 0 <= p < n ==> BoundaryList(AllRegions(atts), p, ss[p])) && es == AllTags(ss, n)
    ensures forall e :: Count(es, e) == Due(AllRegions(atts), n, e)
    ensures TokensInside(AllRegions(atts), es)
  {
    hide WellNested, AllRegions, BoundaryList, Count, Due, Match, InsideAll, TagsAt;
    es, ss := [], [];
    ghost var open := [];
    NothingOpen(AllRegions(atts), n, -1, []);
    EmptyMatch();
    for p := 0 to n
      invariant OpenList(AllRegions(atts), p - 1, open) && Match([], es) == Balanced(open)
      invariant |ss| == p && (forall q :: 0 <= q < p ==> BoundaryList(AllRegions(atts), q, ss[q])) && es == AllTags(ss, p)
      invariant TokensInside(AllRegions(atts), es) && forall k :: 0 <= k < |es| && es[k].Token? ==> es[k].cpos < p
    {
      var here;
      ghost var s;
      here, s := PositionValues(atts, p, n);
      MatchAppend([], es, here);
      TokensStay(AllRegions(atts), n, p, open, s, es);
      open := PositionStep(AllRegions(atts), n, p, open, s);
      TagsStay(ss, [s], p);
      ss := ss + [s];
      es := es + here;
    }
    NothingOpen(AllRegions(atts), n, n - 1, open);
    forall e ensures Count(es, e) == Due(AllRegions(atts), n, e) { PrintedOnce(AllRegions(atts), ss, n, e); }
  }

  lemma EmptyMatch()
    ensures Match([], []) == Balanced([])
  {
  }

  lemma {:induction false} TagsStay(ss: seq<seq<Region>>, more: seq<seq<Region>>, n: nat)
    requires n <= |ss|
    ensures AllTags(ss + more, n) == AllTags(ss, n)
  {
    if n > 0 { TagsStay(ss, more, n - 1); }
  }

  lemma NothingOpen(all: set<Region>, n: nat, p: int, open: seq<Region>)
    requires WellNested(all, n) && (p == -1 || p == n - 1)
    ensures OpenList(all, p, [])
    ensures OpenList(all, p, open) ==> open == []
  {
    assert open != [] ==> open[0] in open;
  }
}
