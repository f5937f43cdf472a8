/** The binary searches of cl/cdaccess.c: strings in the sorted lexicon (cl_str2id), regions of
    s-attributes (get_previous_mark), and regions of alignments, old and extended. */
module Searches {
  import opened FeatureSets
  import BitIO

  const CDA_ENOSTRING: int := -6
  const CDA_EALIGN: int := -9
  const CDA_EPOSORNG: int := -4
  const CDA_EOTHER: int := -14
  const INT_LIMIT: int := 0x8000_0000

  // ----- the number of steps

  /** How often a number can be halved before it is zero. */
  function Halvings(n: nat): (h: nat)
    ensures n > 0 ==> h == 1 + Halvings(n / 2)
  {
    if n == 0 then 0 else 1 + Halvings(n / 2)
  }

  lemma {:induction false} HalvingsMonotone(m: nat, n: nat)
    requires m <= n
    ensures Halvings(m) <= Halvings(n)
  {
    if m > 0 { HalvingsMonotone(m / 2, n / 2); }
  }

  /** The number of halvings is logarithmic. */
  lemma {:induction false} Logarithmic(n: nat, k: nat)
    requires n < BitIO.Pow2(k)
    ensures Halvings(n) <= k
  {
    if k > 0 && n > 0 {
      assert n / 2 < BitIO.Pow2(k - 1);
      Logarithmic(n / 2, k - 1);
    }
  }

  /** No table that an int can index takes more than 31 halvings. */
  lemma FewHalvings(n: nat)
    requires n < INT_LIMIT
    ensures Halvings(n) <= 31
  {
    BitIO.Powers();
    assert BitIO.Pow2(12) == 4096;
    assert BitIO.Pow2(16) == 65536;
    assert BitIO.Pow2(20) == 1048576;
    assert BitIO.Pow2(24) == 16777216;
    assert BitIO.Pow2(28) == 268435456;
    assert BitIO.Pow2(31) == 2147483648;
    Logarithmic(n, 31);
  }

  // ----- strings of a lexicon

  /** The components of a lexicon: the string data with a zero after each string, the offset of each
      string, and the ids in the order of their strings. */
  datatype Lexicon = Lexicon(data: seq<int>, idx: seq<int>, srt: seq<int>)

  /** The C string that begins at an offset. */
  function CString(data: seq<int>, o: int): (s: Str)
    ensures 0 <= o < |data| ==> o + |s| <= |data| && s == data[o..o + |s|]
    ensures 0 <= o < |data| && o + |s| < |data| && -128 <= data[o + |s|] < 128 ==> data[o + |s|] == 0
    decreases |data| - o
  {
    if 0 <= o < |data| && -128 <= data[o] < 128 && data[o] != 0 then [data[o]] + CString(data, o + 1) else []
  }

  /** cl_id2str. */
  function Id2Str(lex: Lexicon, id: int): Str
    requires 0 <= id < |lex.idx|
  {
    CString(lex.data, lex.idx[id])
  }

  ghost predicate IsId(lex: Lexicon, id: int) {
    0 <= id < |lex.idx|
  }

  /** What creat_sort_lexicon leaves: every id once, and the strings in the order of cl_strcmp. */
  ghost predicate SortIndex(lex: Lexicon) {
    |lex.srt| == |lex.idx| &&
    (forall k :: 0 <= k < |lex.srt| ==> IsId(lex, lex.srt[k])) &&
    (forall id :: IsId(lex, id) ==> id in lex.srt) &&
    forall j, k :: 0 <= j < k < |lex.srt| ==> Compare(Id2Str(lex, lex.srt[j]), Id2Str(lex, lex.srt[k])) <= 0
  }

  ghost predicate DistinctStrings(lex: Lexicon) {
    forall i, j :: IsId(lex, i) && IsId(lex, j) && Id2Str(lex, i) == Id2Str(lex, j) ==> i == j
  }

  /** The string at a place of the sort index. */
  function Ranked(lex: Lexicon, k: int): Str
    requires SortIndex(lex) && 0 <= k < |lex.srt|
  {
    Id2Str(lex, lex.srt[k])
  }

  lemma StrictBelow(a: Str, b: Str, c: Str)
    requires Compare(a, b) <= 0 && Compare(b, c) < 0
    ensures Compare(a, c) < 0
  {
    CompareTransitive(a, b, c);
    CompareAntisymmetric(a, c);
    CompareAntisymmetric(b, c);
    CompareAntisymmetric(a, b);
  }

  lemma StrictAbove(a: Str, b: Str, c: Str)
    requires Compare(a, b) < 0 && Compare(b, c) <= 0
    ensures Compare(a, c) < 0
  {
    CompareTransitive(a, b, c);
    CompareAntisymmetric(a, c);
    CompareAntisymmetric(b, c);
    CompareAntisymmetric(a, b);
  }

  /** All strings up to a place are below a string that the one at the place is below of, and so upwards. */
  lemma Halve(lex: Lexicon, s: Str, mid: int)
    requires SortIndex(lex) && 0 <= mid < |lex.srt|
    ensures Compare(s, Ranked(lex, mid)) > 0 ==> forall j :: 0 <= j <= mid ==> Compare(Ranked(lex, j), s) < 0
    ensures Compare(s, Ranked(lex, mid)) < 0 ==> forall j :: mid <= j < |lex.srt| ==> Compare(s, Ranked(lex, j)) < 0
  {
    var m := Ranked(lex, mid);
    CompareAntisymmetric(s, m);
    CompareAntisymmetric(m, m);
    forall j | 0 <= j < |lex.srt|
      ensures j <= mid && Compare(s, m) > 0 ==> Compare(Ranked(lex, j), s) < 0
      ensures j >= mid && Compare(s, m) < 0 ==> Compare(s, Ranked(lex, j)) < 0
    {
      if j <= mid && Compare(s, m) > 0 { StrictBelow(Ranked(lex, j), m, s); }
      if j >= mid && Compare(s, m) < 0 { StrictAbove(s, m, Ranked(lex, j)); }
    }
  }

  lemma Absent(lex: Lexicon, s: Str)
    requires SortIndex(lex) && forall j :: 0 <= j < |lex.srt| ==> Compare(Ranked(lex, j), s) != 0
    ensures forall id :: IsId(lex, id) ==> Id2Str(lex, id) != s
  {
    forall id | IsId(lex, id) ensures Id2Str(lex, id) != s {
      var j :| 0 <= j < |lex.srt| && lex.srt[j] == id;
      assert Ranked(lex, j) == Id2Str(lex, id);
      CompareAntisymmetric(Id2Str(lex, id), s);
    }
  }

  lemma Misses(lex: Lexicon, s: Str, low: int)
    requires SortIndex(lex) && 0 <= low < |lex.srt| && Compare(s, Ranked(lex, low)) != 0
    requires forall j :: 0 <= j < low ==> Compare(Ranked(lex, j), s) < 0
    requires forall j :: low < j < |lex.srt| ==> Compare(s, Ranked(lex, j)) < 0
    ensures forall id :: IsId(lex, id) ==> Id2Str(lex, id) != s
  {
    hide Compare, SortIndex, Ranked, Id2Str;
    forall j | 0 <= j < |lex.srt| ensures Compare(Ranked(lex, j), s) != 0 {
      CompareAntisymmetric(Ranked(lex, j), s);
    }
    Absent(lex, s);
  }

  /** cl_str2id.  `steps` is the number of comparisons. */
  method Str2Id(lex: Lexicon, s: Str) returns (id: int, steps: nat)
    requires SortIndex(lex) && 0 < |lex.idx| < INT_LIMIT
    ensures if id >= 0 then IsId(lex, id) && Id2Str(lex, id) == s
            else id == CDA_ENOSTRING && forall i :: IsId(lex, i) ==> Id2Str(lex, i) != s
    ensures steps <= 1 + Halvings(|lex.idx| - 1) <= 32
  {
    hide SortIndex, Compare, Halvings, Id2Str, IsId;
    FewHalvings(|lex.idx| - 1);
    SameSize(lex);
    var low, high := 0, |lex.idx|;
    steps := 0;
    while true
      invariant 0 <= low < high <= |lex.srt|
      invariant steps + Halvings(high - low - 1) <= Halvings(|lex.idx| - 1)
      invariant forall j :: 0 <= j < low ==> Compare(Ranked(lex, j), s) < 0
      invariant forall j :: high <= j < |lex.srt| ==> Compare(s, Ranked(lex, j)) < 0
      decreases high - low
    {
      if steps >= 1000000 {
        id := CDA_EOTHER;
        return;
      }
      steps := steps + 1;
      var mid := low + (high - low) / 2;
      var comp := StrCmp(s, Ranked(lex, mid));
      if comp == 0 {
        Hit(lex, s, mid);
        return lex.srt[mid], steps;
      }
      if mid == low {
        Misses(lex, s, low);
        return CDA_ENOSTRING, steps;
      }
      Halve(lex, s, mid);
      HalvingsMonotone(if comp > 0 then high - mid - 1 else mid - low - 1, (high - low - 1) / 2);
      if comp > 0 { low := mid; } else { high := mid; }
    }
  }

  lemma SameSize(lex: Lexicon)
    requires SortIndex(lex)
    ensures |lex.srt| == |lex.idx|
  {
  }

  lemma Hit(lex: Lexicon, s: Str, mid: int)
    requires SortIndex(lex) && 0 <= mid < |lex.srt| && Compare(s, Ranked(lex, mid)) == 0
    ensures IsId(lex, lex.srt[mid]) && Id2Str(lex, lex.srt[mid]) == s && lex.srt[mid] >= 0
  {
    CompareAntisymmetric(s, Ranked(lex, mid));
  }

  /** With distinct strings, cl_str2id is the inverse of cl_id2str. */
  method InvertId(lex: Lexicon, id: int) returns (back: int)
    requires SortIndex(lex) && DistinctStrings(lex) && IsId(lex, id) && |lex.idx| < INT_LIMIT
    ensures back == id
  {
    hide SortIndex, Compare, Halvings, Id2Str;
    var steps;
    back, steps := Str2Id(lex, Id2Str(lex, id));
  }

  // ----- regions

  datatype Region = Region(start: int, end: int)

  /** The regions of an s-attribute: pairs of corpus positions. */
  function Structures(data: seq<int>): (rs: seq<Region>)
    ensures |rs| == |data| / 2
  {
    seq(|data| / 2, k requires 0 <= k < |data| / 2 => Region(data[k * 2], data[k * 2 + 1]))
  }

  /** The source and target regions of an extended alignment. */
  function Sources(data: seq<int>): seq<Region> {
    seq(|data| / 4, k requires 0 <= k < |data| / 4 => Region(data[k * 4], data[k * 4 + 1]))
  }

  function Targets(data: seq<int>): seq<Region> {
    seq(|data| / 4, k requires 0 <= k < |data| / 4 => Region(data[k * 4 + 2], data[k * 4 + 3]))
  }

  /** Regions are in order and do not overlap. */
  ghost predicate InOrder(rs: seq<Region>) {
    (forall k :: 0 <= k < |rs| ==> rs[k].start <= rs[k].end) &&
    forall j, k :: 0 <= j < k < |rs| ==> rs[j].end < rs[k].start
  }

  ghost predicate Encloses(rs: seq<Region>, k: int, position: int) {
    0 <= k < |rs| && rs[k].start <= position <= rs[k].end
  }

  /** The search has come down to the regions `low .. high`. */
  ghost predicate Narrowed(rs: seq<Region>, position: int, low: int, high: int) {
    0 <= low <= high + 1 && high < |rs| &&
    (forall k :: 0 <= k < low ==> rs[k].end < position) &&
    forall k :: high < k < |rs| ==> position < rs[k].start
  }

  lemma Narrow(rs: seq<Region>, position: int, low: int, high: int, mid: int)
    requires InOrder(rs) && Narrowed(rs, position, low, high) && low <= mid <= high
    ensures rs[mid].end < position ==> Narrowed(rs, position, mid + 1, high)
    ensures position < rs[mid].start ==> Narrowed(rs, position, low, mid - 1)
  {
  }

  lemma NotEnclosed(rs: seq<Region>, position: int, low: int, high: int)
    requires InOrder(rs) && Narrowed(rs, position, low, high) && low > high
    ensures forall k :: !Encloses(rs, k, position)
  {
    forall k | 0 <= k < |rs| ensures !Encloses(rs, k, position) {
      assert k < low || k > high;
    }
  }

  lemma OnlyOne(rs: seq<Region>, position: int, j: int, k: int)
    requires InOrder(rs) && Encloses(rs, j, position) && Encloses(rs, k, position)
    ensures j == k
  {
  }

  /** get_previous_mark: the offset of the region, or -1 for the null pointer. */
  method GetPreviousMark(data: seq<int>, size: int, position: int) returns (mark: int, steps: nat)
    requires size == |data| < INT_LIMIT && InOrder(Structures(data))
    ensures if mark == -1 then forall m :: 0 <= m < size - 1 && m % 2 == 0 ==> !(data[m] <= position <= data[m + 1])
            else 0 <= mark < size - 1 && mark % 2 == 0 && data[mark] <= position <= data[mark + 1]
    ensures steps <= Halvings(size / 2) <= 31
  {
    hide InOrder, Narrowed, Halvings, Encloses, Structures;
    ghost var rs := Structures(data);
    var max := size / 2;
    FewHalvings(max);
    var low, high := 0, max - 1;
    steps := 0;
    StartNarrow(rs, position);
    while low <= high
      invariant Narrowed(rs, position, low, high) && low <= high + 1
      invariant steps + Halvings(high - low + 1) <= Halvings(max)
    {
      HalvingsMonotone(0, high - low + 1);
      steps := steps + 1;
      NarrowBounds(rs, position, low, high);
      var mid := (low + high) / 2;
      HalvingsMonotone(high - mid, (high - low + 1) / 2);
      HalvingsMonotone(mid - low, (high - low + 1) / 2);
      Narrow(rs, position, low, high, mid);
      if steps > 100000 {
        mark := -1;
        return;
      }
      MarkAt(data, mid);
      var comp := position - data[mid * 2];
      if comp == 0 {
        return mid * 2, steps;
      } else if comp > 0 {
        if position <= data[mid * 2 + 1] {
          return mid * 2, steps;
        }
        low := mid + 1;
      } else if mid == low {
        NotEnclosed(rs, position, low, mid - 1);
        NoMark(data, position);
        return -1, steps;
      } else {
        high := mid - 1;
      }
    }
    NotEnclosed(rs, position, low, high);
    NoMark(data, position);
    mark := -1;
  }

  lemma StartNarrow(rs: seq<Region>, position: int)
    ensures Narrowed(rs, position, 0, |rs| - 1)
  {
  }

  lemma NarrowBounds(rs: seq<Region>, position: int, low: int, high: int)
    requires Narrowed(rs, position, low, high)
    ensures 0 <= low <= high + 1 && high < |rs|
  {
  }

  lemma MarkAt(data: seq<int>, k: int)
    requires 0 <= k < |data| / 2 && InOrder(Structures(data))
    ensures Structures(data)[k] == Region(data[k * 2], data[k * 2 + 1]) && data[k * 2] <= data[k * 2 + 1]
  {
  }

  lemma NoMark(data: seq<int>, position: int)
    requires forall k :: !Encloses(Structures(data), k, position)
    ensures forall m :: 0 <= m < |data| - 1 && m % 2 == 0 ==> !(data[m] <= position <= data[m + 1])
  {
    forall m | 0 <= m < |data| - 1 && m % 2 == 0 ensures !(data[m] <= position <= data[m + 1]) {
      assert !Encloses(Structures(data), m / 2, position);
      assert Structures(data)[m / 2] == Region(data[m], data[m + 1]);
    }
  }

  lemma NoSource(data: seq<int>, position: int)
    requires forall k :: !Encloses(Sources(data), k, position)
    ensures forall m :: 0 <= m < |data| - 3 && m % 4 == 0 ==> !(data[m] <= position <= data[m + 1])
  {
    forall m | 0 <= m < |data| - 3 && m % 4 == 0 ensures !(data[m] <= position <= data[m + 1]) {
      assert !Encloses(Sources(data), m / 4, position);
      assert Sources(data)[m / 4] == Region(data[m], data[m + 1]);
    }
  }

  /** get_extended_alignment: the number of the source region. */
  method GetExtendedAlignment(data: seq<int>, size: int, position: int) returns (alg: int, steps: nat)
    requires size == |data| < INT_LIMIT && InOrder(Sources(data))
    ensures if alg < 0 then alg == CDA_EALIGN && forall m :: 0 <= m < size - 3 && m % 4 == 0 ==> !(data[m] <= position <= data[m + 1])
            else alg < size / 4 && data[alg * 4] <= position <= data[alg * 4 + 1]
    ensures steps <= Halvings(size / 4) <= 31
  {
    hide InOrder, Narrowed, Halvings, Encloses;
    ghost var rs := Sources(data);
    var max := size / 4;
    FewHalvings(max);
    var low, high := 0, max - 1;
    steps := 0;
    StartNarrow(rs, position);
    while low <= high
      invariant Narrowed(rs, position, low, high) && low <= high + 1
      invariant steps + Halvings(high - low + 1) <= Halvings(max)
    {
      HalvingsMonotone(0, high - low + 1);
      steps := steps + 1;
      NarrowBounds(rs, position, low, high);
      var mid := (low + high) / 2;
      HalvingsMonotone(high - mid, (high - low + 1) / 2);
      HalvingsMonotone(mid - low, (high - low + 1) / 2);
      Narrow(rs, position, low, high, mid);
      if steps > 100000 {
        alg := -1;
        return;
      }
      assert rs[mid] == Region(data[mid * 4], data[mid * 4 + 1]);
      var start, end := data[mid * 4], data[mid * 4 + 1];
      if start <= position {
        if position <= end {
          return mid, steps;
        }
        low := mid + 1;
      } else {
        high := mid - 1;
      }
    }
    NotEnclosed(rs, position, low, high);
    NoSource(data, position);
    alg := CDA_EALIGN;
  }

  // ----- old alignments: boundaries, each of which begins a region

  /** A source boundary; behind the last one the search reads whatever follows the table. */
  function Boundary(data: seq<int>, past: int, k: nat): int {
    if k * 2 < |data| then data[k * 2] else past
  }

  /** The source boundaries. */
  function Boundaries(data: seq<int>): (bs: seq<int>)
    ensures |bs| == |data| / 2
  {
    seq(|data| / 2, k requires 0 <= k < |data| / 2 => data[k * 2])
  }

  ghost predicate Increasing(bs: seq<int>) {
    forall j, k :: 0 <= j < k < |bs| ==> bs[j] < bs[k]
  }

  ghost predicate BoundaryNarrowed(bs: seq<int>, position: int, low: int, high: int) {
    0 <= low <= high + 1 && high < |bs| &&
    (forall k :: 0 < k <= low && k < |bs| ==> bs[k] <= position) &&
    (low == |bs| > 0 ==> bs[|bs| - 1] < position) &&
    forall k :: high < k < |bs| ==> position < bs[k]
  }

  /** The answer for a position, given the number that follows the table. */
  ghost predicate AlignedAt(bs: seq<int>, past: int, position: int, alg: int) {
    var last := |bs| - 1;
    if |bs| == 0 || position < bs[0] then alg == -1
    else if position < bs[last] then 0 <= alg < last && bs[alg] <= position < bs[alg + 1]
    else if position == bs[last] then alg == last
    else alg == if position < past then last else -1
  }

  /** get_alignment.  For a position from the last boundary on there is no region to be found: at the
      boundary the answer is its number, and behind it depends on what follows the table. */
  method GetAlignment(data: seq<int>, size: int, past: int, position: int) returns (alg: int, steps: nat)
    requires size == |data| < INT_LIMIT && |data| % 2 == 0 && Increasing(Boundaries(data))
    ensures AlignedAt(Boundaries(data), past, position, alg)
    ensures steps <= Halvings(size / 2) <= 31
  {
    hide Halvings, Increasing, BoundaryNarrowed, AlignedAt;
    ghost var bs := Boundaries(data);
    var max := size / 2;
    FewHalvings(max);
    var low, high := 0, max - 1;
    steps := 0;
    BoundaryStart(bs, position);
    while low <= high
      invariant BoundaryNarrowed(bs, position, low, high) && 0 <= low <= high + 1 && high < max
      invariant steps + Halvings(high - low + 1) <= Halvings(max)
      invariant max > 0 && position > bs[max - 1] && position < past ==> low <= high
    {
      HalvingsMonotone(0, high - low + 1);
      steps := steps + 1;
      var mid := (low + high) / 2;
      HalvingsMonotone(high - mid, (high - low + 1) / 2);
      HalvingsMonotone(mid - low, (high - low + 1) / 2);
      if steps > 100000 {
        alg := -1;
        return;
      }
      var comp := position - data[mid * 2];
      assert bs[mid] == data[mid * 2] && (mid < max - 1 ==> bs[mid + 1] == data[(mid + 1) * 2]);
      BoundaryStep(bs, past, position, low, high, mid);
      if comp == 0 {
        return mid, steps;
      } else if comp > 0 {
        if mid * 2 < size && position < Boundary(data, past, mid + 1) {
          return mid, steps;
        }
        low := mid + 1;
      } else if mid == low {
        BoundaryEnd(bs, past, position, low, mid - 1);
        return -1, steps;
      } else {
        high := mid - 1;
      }
    }
    BoundaryEnd(bs, past, position, low, high);
    alg := -1;
  }

  lemma BoundaryStart(bs: seq<int>, position: int)
    ensures BoundaryNarrowed(bs, position, 0, |bs| - 1)
  {
  }

  lemma BoundaryStep(bs: seq<int>, past: int, position: int, low: int, high: int, mid: int)
    requires Increasing(bs) && BoundaryNarrowed(bs, position, low, high) && 0 <= low <= mid <= high < |bs|
    ensures var next := if mid == |bs| - 1 then past else bs[mid + 1];
            (position < bs[mid] ==> BoundaryNarrowed(bs, position, low, mid - 1)) &&
            (position > bs[mid] && position >= next ==> BoundaryNarrowed(bs, position, mid + 1, high)) &&
            (position == bs[mid] || bs[mid] < position < next ==> AlignedAt(bs, past, position, mid))
    ensures bs[mid] <= bs[|bs| - 1]
    ensures position > bs[|bs| - 1] && position < past ==> high == |bs| - 1
  {
    assert high < |bs| - 1 ==> bs[high + 1] <= bs[|bs| - 1];
  }

  lemma BoundaryEnd(bs: seq<int>, past: int, position: int, low: int, high: int)
    requires Increasing(bs) && BoundaryNarrowed(bs, position, low, high) && low == high + 1
    requires |bs| > 0 && position > bs[|bs| - 1] ==> position >= past
    ensures AlignedAt(bs, past, position, -1)
  {
    assert low < |bs| ==> bs[low] <= bs[|bs| - 1];
  }

  /** cl_cpos2alg, without the access to the components.  In an old alignment the last boundary has the
      number of a region that does not exist, and so have positions behind it that are smaller than
      the number behind the table. */
  method Cpos2Alg(data: seq<int>, extended: bool, past: int, cpos: int) returns (alg: int)
    requires |data| < INT_LIMIT && if extended then InOrder(Sources(data)) else |data| % 2 == 0 && Increasing(Boundaries(data))
    ensures extended ==>
              if alg < 0 then alg == CDA_EALIGN && forall m :: 0 <= m < |data| - 3 && m % 4 == 0 ==> !(data[m] <= cpos <= data[m + 1])
              else alg < |data| / 4 && data[alg * 4] <= cpos <= data[alg * 4 + 1]
    ensures var bs := Boundaries(data);
            !extended && |bs| > 0 && bs[0] <= cpos < bs[|bs| - 1] ==> 0 <= alg < |bs| - 1 && bs[alg] <= cpos < bs[alg + 1]
    ensures var bs := Boundaries(data);
            !extended && (|bs| == 0 || cpos < bs[0]) ==> alg == CDA_EPOSORNG
    ensures var bs := Boundaries(data);
            !extended && |bs| > 0 && cpos == bs[|bs| - 1] ==> alg == |bs| - 1
    ensures var bs := Boundaries(data);
            !extended && |bs| > 0 && cpos > bs[|bs| - 1] ==> alg == if cpos < past then |bs| - 1 else CDA_EPOSORNG
  {
    hide Halvings, InOrder;
    var steps;
    if !extended {
      alg, steps := GetAlignment(data, |data|, past, cpos);
      if alg < 0 { alg := CDA_EPOSORNG; }
    } else {
      alg, steps := GetExtendedAlignment(data, |data|, cpos);
    }
  }

  /** cl_alg2cpos: the two regions of an alignment. */
  method Alg2Cpos(data: seq<int>, extended: bool, alg: int) returns (ok: bool, source: Region, target: Region)
    ensures ok == (0 <= alg < if extended then |data| / 4 else |data| / 2 - 1)
    ensures ok && extended ==> source == Sources(data)[alg] == Region(data[alg * 4], data[alg * 4 + 1]) &&
                               target == Targets(data)[alg] == Region(data[alg * 4 + 2], data[alg * 4 + 3])
    ensures ok && !extended ==> source == Region(data[alg * 2], data[(alg + 1) * 2] - 1) &&
                                target == Region(data[alg * 2 + 1], data[(alg + 1) * 2 + 1] - 1)
    ensures !ok ==> source == Region(-1, -1) && target == Region(-1, -1)
  {
    source, target := Region(-1, -1), Region(-1, -1);
    if !extended {
      var size := |data| / 2 - 1;
      if alg < 0 || alg >= size { return false, source, target; }
      var val := alg * 2;
      source, target := Region(data[val], data[val + 2] - 1), Region(data[val + 1], data[val + 3] - 1);
    } else {
      var size := |data| / 4;
      if alg < 0 || alg >= size { return false, source, target; }
      var val := alg * 4;
      source, target := Region(data[val], data[val + 1]), Region(data[val + 2], data[val + 3]);
    }
    ok := true;
  }

  /** cl_alg2cpos after cl_cpos2alg finds a source region around the position exactly if there is one:
      in an old alignment from the first boundary up to the last, which begins no region. */
  method RegionAround(data: seq<int>, extended: bool, past: int, cpos: int) returns (ok: bool, source: Region)
    requires |data| < INT_LIMIT && if extended then InOrder(Sources(data)) else |data| % 2 == 0 && Increasing(Boundaries(data))
    ensures ok ==> source.start <= cpos <= source.end
    ensures var bs := Boundaries(data); !extended ==> ok == (|bs| > 0 && bs[0] <= cpos < bs[|bs| - 1])
    ensures extended ==> ok == exists m :: 0 <= m < |data| - 3 && m % 4 == 0 && data[m] <= cpos <= data[m + 1]
  {
    hide InOrder, Increasing;
    var alg := Cpos2Alg(data, extended, past, cpos);
    var target;
    ok, source, target := Alg2Cpos(data, extended, alg);
    if extended && ok {
      var m := alg * 4;
      assert data[m] <= cpos <= data[m + 1];
    }
  }
}
