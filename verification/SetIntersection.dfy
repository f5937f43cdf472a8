/** The intersection of feature sets, cl_set_intersection (cl/attributes.c): a merge through two
    feature buffers that keep their contents from call to call. */
module SetIntersection {
  import opened Sorting
  import opened FeatureSets

  /** The merge of two lists that keeps what is common. */
  function Merge(a: seq<Str>, b: seq<Str>): seq<Str>
    decreases |a| + |b|
  {
    if a == [] || b == [] then []
    else
      var c := Compare(a[0], b[0]);
      if c == 0 then [a[0]] + Merge(a[1..], b[1..])
      else if c < 0 then Merge(a[1..], b)
      else Merge(a, b[1..])
  }

  lemma NotBefore(x: Str, l: seq<Str>)
    requires Sorted(Compare, l) && l != [] && Compare(x, l[0]) < 0
    ensures x !in l
  {
    StringOrder();
    CompareAntisymmetric(x, l[0]);
    if x in l { SmallestFirst(Compare, l, x); }
  }

  /** The merge is the sorted multiset intersection. */
  lemma {:induction false} MergeIntersects(a: seq<Str>, b: seq<Str>)
    requires Sorted(Compare, a) && Sorted(Compare, b)
    ensures Sorted(Compare, Merge(a, b)) && multiset(Merge(a, b)) == multiset(a) * multiset(b)
    decreases |a| + |b|
  {
    if a != [] && b != [] {
      CompareAntisymmetric(a[0], b[0]);
      var c := Compare(a[0], b[0]);
      if c == 0 {
        MergeIntersects(a[1..], b[1..]);
        KeepFirst(a, b, Merge(a[1..], b[1..]));
      } else if c < 0 {
        MergeIntersects(a[1..], b);
        DropFirst(a, b);
      } else {
        MergeIntersects(a, b[1..]);
        DropFirst(b, a);
        assert multiset(b) * multiset(a) == multiset(a) * multiset(b);
        assert multiset(b[1..]) * multiset(a) == multiset(a) * multiset(b[1..]);
      }
    }
  }

  lemma KeepFirst(a: seq<Str>, b: seq<Str>, r: seq<Str>)
    requires a != [] && b != [] && a[0] == b[0] && Sorted(Compare, a) && Sorted(Compare, r)
    requires multiset(r) == multiset(a[1..]) * multiset(b[1..])
    ensures Sorted(Compare, [a[0]] + r) && multiset([a[0]] + r) == multiset(a) * multiset(b)
  {
    hide Compare;
    assert a == [a[0]] + a[1..] && b == [b[0]] + b[1..];
    forall j | 0 <= j < |r| ensures Compare(a[0], r[j]) <= 0 {
      assert r[j] in multiset(r);
      assert r[j] in a[1..];
    }
  }

  lemma DropFirst(a: seq<Str>, b: seq<Str>)
    requires a != [] && b != [] && Sorted(Compare, b) && Compare(a[0], b[0]) < 0
    ensures multiset(a[1..]) * multiset(b) == multiset(a) * multiset(b)
  {
    hide Compare;
    assert a == [a[0]] + a[1..];
    NotBefore(a[0], b);
  }

  /** Intersection is commutative and idempotent, and its size is the number of common elements. */
  lemma MergeCommutes(a: seq<Str>, b: seq<Str>)
    requires Sorted(Compare, a) && Sorted(Compare, b)
    ensures Merge(a, b) == Merge(b, a)
    ensures Merge(a, a) == a
    ensures |Merge(a, b)| == |multiset(a) * multiset(b)|
  {
    hide Merge, Compare, Sorted, TotalOrder;
    StringOrder();
    MergeIntersects(a, b);
    MergeIntersects(b, a);
    assert multiset(a) * multiset(b) == multiset(b) * multiset(a);
    SortedUnique(Compare, Merge(a, b), Merge(b, a));
    MergeIntersects(a, a);
    assert multiset(a) * multiset(a) == multiset(a);
    SortedUnique(Compare, Merge(a, a), a);
    assert |multiset(Merge(a, b))| == |Merge(a, b)|;
  }

  /** Intersection is associative. */
  lemma MergeAssociates(a: seq<Str>, b: seq<Str>, c: seq<Str>)
    requires Sorted(Compare, a) && Sorted(Compare, b) && Sorted(Compare, c)
    ensures Merge(Merge(a, b), c) == Merge(a, Merge(b, c))
  {
    hide Merge, Compare, Sorted, TotalOrder;
    StringOrder();
    MergeIntersects(a, b);
    MergeIntersects(b, c);
    MergeIntersects(Merge(a, b), c);
    MergeIntersects(a, Merge(b, c));
    assert multiset(a) * multiset(b) * multiset(c) == multiset(a) * (multiset(b) * multiset(c));
    SortedUnique(Compare, Merge(Merge(a, b), c), Merge(a, Merge(b, c)));
  }

  predicate NonEmpty(l: seq<Str>) {
    forall i :: 0 <= i < |l| ==> l[i] != []
  }

  /** What is in the feature buffer when an element is compared: an empty element leaves it alone. */
  function Load(x: Str, f: Str): Str {
    if x == [] then f else x
  }

  /** The elements copied, and what is left of the two lists and in the two buffers when one of the
      lists is used up. */
  datatype Common = Common(list: seq<Str>, left: seq<Str>, right: seq<Str>, f1: Str, f2: Str)

  /** The merge of cl_set_intersection on lists of elements, empty ones included, with what earlier
      calls left in the feature buffers. */
  function Meet(a: seq<Str>, b: seq<Str>, f1: Str, f2: Str): Common
    decreases |a| + |b|
  {
    if a == [] || b == [] then Common([], a, b, f1, f2)
    else
      var g1, g2 := Load(a[0], f1), Load(b[0], f2);
      var c := Compare(g1, g2);
      if c == 0 then After([g1], Meet(a[1..], b[1..], g1, g2))
      else if c < 0 then Meet(a[1..], b, g1, g2)
      else Meet(a, b[1..], g1, g2)
  }

  function After(out: seq<Str>, c: Common): Common {
    c.(list := out + c.list)
  }

  /** From position `i` of a set text on, `rest` is still to come. */
  ghost predicate Here(t: Str, i: nat, rest: seq<Str>) {
    i <= |t| && Pieces(t[i..]) == rest && (i == |t| ==> Closed(t))
  }

  /** The first element of `rest` has been read, as far as there is anything to read. */
  ghost predicate Active(t: Str, i: nat, f: Str, rest: seq<Str>) {
    i < |t| && t[i] == BAR && rest != [] && f == Load(rest[0], f) && Here(t, i + 1, rest[1..])
  }

  ghost predicate Pending(t: Str, i: nat, f: Str, rest: seq<Str>) {
    Here(t, i, rest) || Active(t, i, f, rest)
  }

  lemma AtEnd(t: Str, i: nat, f: Str, rest: seq<Str>)
    requires Pending(t, i, f, rest)
    ensures i == |t| ==> rest == [] && Closed(t)
    ensures i < |t| && rest == [] ==> !Closed(t)
  {
    hide BarAt;
    if i < |t| && Here(t, i, rest) {
      hide Pieces;
      NextPiece(t[i..]);
      assert t[i..][|t| - i - 1] == t[|t| - 1];
    } else if i == |t| {
      NoPieces();
    }
  }

  lemma Activate(t: Str, i: nat, f: Str, rest: seq<Str>)
    requires Pending(t, i, f, rest) && i < |t|
    ensures rest == [] ==> t[i] != BAR && BarAt(t[i..]) == |t| - i
    ensures rest != [] && t[i] == BAR ==> Active(t, i, f, rest) && f == Load(rest[0], f)
    ensures rest != [] && t[i] != BAR ==>
              var n := BarAt(t[i..]);
              i + n < |t| && t[i + n] == BAR && t[i..i + n] == Load(rest[0], f) && Active(t, i + n, t[i..i + n], rest)
  {
    hide BarAt, Pieces;
    if Here(t, i, rest) {
      var u := t[i..];
      var n := BarAt(u);
      NextPiece(u);
      assert u[0] == t[i] && t[i..i + n] == u[..n];
      if rest != [] { Behind(t, i, n, rest); }
    }
  }

  /** A text has no pieces exactly if it has no `|`. */
  lemma NextPiece(u: Str)
    requires u != []
    ensures var n := BarAt(u);
            if n == |u| then Pieces(u) == [] && u[0] != BAR && u[|u| - 1] != BAR
            else Pieces(u) == [u[..n]] + Pieces(u[n + 1..]) && (u[0] == BAR <==> n == 0)
  {
    assert BarAt(u) == |u| ==> u[..BarAt(u)] == u;
    assert u[0] in u && u[|u| - 1] in u;
  }

  lemma Behind(t: Str, i: nat, n: nat, rest: seq<Str>)
    requires i + n < |t| && t[i..][n] == BAR && rest == [t[i..][..n]] + Pieces(t[i..][n + 1..])
    ensures t[i + n] == BAR && Here(t, i + n + 1, rest[1..])
  {
    hide Pieces;
    assert t[i..][n + 1..] == t[i + n + 1..];
  }

  lemma Advance(t: Str, i: nat, f: Str, rest: seq<Str>)
    requires Active(t, i, f, rest)
    ensures rest != [] && f == Load(rest[0], f) && Pending(t, i + 1, f, rest[1..]) && Pending(t, i, f, rest)
  {
  }

  /** The static feature buffers of cl_set_intersection, which keep their contents between calls. */
  class FeatureBuffers {
    var f1: Str
    var f2: Str

    constructor ()
      ensures f1 == [] && f2 == []
    {
      f1, f2 := [], [];
    }

    /** Reads the next feature into a buffer, unless one is active. */
    static method ReadFeature(t: Str, i0: nat, f0: Str) returns (ok: bool, i: nat, f: Str)
      requires i0 < |t|
      ensures t[i0] == BAR ==> ok && i == i0 && f == f0
      ensures t[i0] != BAR ==> var n := BarAt(t[i0..]); i == i0 + n && ok == (i < |t|) && f == t[i0..i]
    {
      ok, i, f := true, i0, f0;
      if t[i] != BAR {
        f := [];
        while At(t, i) != BAR
          invariant i0 <= i <= |t| && f == t[i0..i] && BAR !in f
          decreases |t| - i
        {
          if i == |t| {
            FirstBar(t, i0, i);
            return false, i, f;
          }
          assert t[i0..i + 1] == t[i0..i] + [t[i]];
          f := f + [t[i]];
          i := i + 1;
        }
        FirstBar(t, i0, i);
      }
    }

    /** The loop of cl_set_intersection is in order: `out` is written, and `r1` and `r2` are to come. */
    ghost predicate Progress(t1: Str, i1: nat, r1: seq<Str>, t2: Str, i2: nat, r2: seq<Str>,
                             result: Str, out: seq<Str>, goal: Common)
      reads this
    {
      Pending(t1, i1, f1, r1) && Pending(t2, i2, f2, r2) && result == SetText(out) &&
      After(out, Meet(r1, r2, f1, f2)) == goal
    }

    /** One round of the loop of cl_set_intersection. */
    method Round(t1: Str, j1: nat, t2: Str, j2: nat, text: Str, ghost q1: seq<Str>, ghost q2: seq<Str>,
                 ghost done: seq<Str>, ghost goal: Common)
      returns (ok: bool, i1: nat, i2: nat, result: Str, ghost r1: seq<Str>, ghost r2: seq<Str>, ghost out: seq<Str>)
      requires j1 < |t1| && j2 < |t2| && Progress(t1, j1, q1, t2, j2, q2, text, done, goal)
      modifies this
      ensures ok == (q1 != [] && q2 != [])
      ensures ok ==> i1 <= |t1| && i2 <= |t2| && i1 >= j1 && i2 >= j2 && i1 + i2 > j1 + j2
      ensures ok ==> Progress(t1, i1, r1, t2, i2, r2, result, out, goal)
    {
      hide Pieces, Meet, Compare, SetTail, Pending, Active, BarAt, Load, SetText;
      ok, i1, i2, result := true, j1, j2, text;
      r1, r2, out := q1, q2, done;
      ghost var was1, was2 := f1, f2;
      Activate(t1, i1, f1, r1);
      Activate(t2, i2, f2, r2);
      ok, i1, f1 := ReadFeature(t1, i1, f1);
      if !ok { return; }
      ok, i2, f2 := ReadFeature(t2, i2, f2);
      if !ok { return; }
      Advance(t1, i1, f1, r1);
      Advance(t2, i2, f2, r2);
      MeetStep(r1, r2, was1, was2);
      OneMoreCommon(out, f1, Meet(r1[1..], r2[1..], f1, f2));
      var comparison := StrCmp(f1, f2);
      if comparison == 0 {
        result := result + f1 + [BAR];
        i1, i2 := i1 + 1, i2 + 1;
        r1, r2, out := r1[1..], r2[1..], out + [f1];
      } else if comparison < 0 {
        i1 := i1 + 1;
        r1 := r1[1..];
      } else {
        i2 := i2 + 1;
        r2 := r2[1..];
      }
    }

    /** cl_set_intersection, for any two strings: bad starts and long strings are errors, and so is a
        last element without its bar when the loop comes to it. */
    method Intersection(s1: Str, s2: Str) returns (ok: bool, result: Str)
      modifies this
      ensures ok ==> Admitted(s1) && Admitted(s2)
      ensures Admitted(s1) && Admitted(s2) ==>
                var m := Meet(Elements(s1), Elements(s2), old(f1), old(f2));
                ok == !Torn(s1, m.left, s2, m.right) && (ok ==> result == SetText(m.list) && f1 == m.f1 && f2 == m.f2)
      ensures !(Admitted(s1) && Admitted(s2)) ==> f1 == old(f1) && f2 == old(f2)
      ensures Admitted(s1) && Admitted(s2) && WellFormed(s1) && WellFormed(s2) &&
              NonEmpty(Elements(s1)) && NonEmpty(Elements(s2)) ==>
                ok && result == SetText(Merge(Elements(s1), Elements(s2)))
    {
      hide Pieces, Meet, Merge, Compare, SetTail, Pending, Active, NonEmpty, BarAt, SetText;
      result := [];
      if At(s1, 0) != BAR || At(s2, 0) != BAR { return false, result; }
      var t1, t2 := s1[1..], s2[1..];
      if |t1| >= CL_DYN_STRING_SIZE || |t2| >= CL_DYN_STRING_SIZE { return false, result; }
      result := [BAR];
      var i1: nat, i2: nat := 0, 0;
      ghost var r1, r2, out: seq<Str> := Pieces(t1), Pieces(t2), [];
      ghost var goal := Meet(r1, r2, f1, f2);
      if NonEmpty(r1) && NonEmpty(r2) { MeetIsMerge(r1, r2, f1, f2); }
      StartPending(t1, f1);
      StartPending(t2, f2);
      EmptySet();
      while i1 < |t1| && i2 < |t2|
        invariant i1 <= |t1| && i2 <= |t2| && Progress(t1, i1, r1, t2, i2, r2, result, out, goal)
        decreases |t1| - i1 + |t2| - i2
      {
        AtEnd(t1, i1, f1, r1);
        AtEnd(t2, i2, f2, r2);
        MeetEnd(r1, r2, f1, f2);
        var read;
        read, i1, i2, result, r1, r2, out := Round(t1, i1, t2, i2, result, r1, r2, out, goal);
        if !read { return false, result; }
      }
      AtEnd(t1, i1, f1, r1);
      AtEnd(t2, i2, f2, r2);
      MeetEnd(r1, r2, f1, f2);
      assert out + [] == out;
      ok := true;
    }
  }

  predicate Admitted(s: Str) {
    s != [] && s[0] == BAR && |s| <= CL_DYN_STRING_SIZE
  }

  /** One set is used up but for an element without a bar, and the other is not used up. */
  predicate Torn(s1: Str, left: seq<Str>, s2: Str, right: seq<Str>) {
    (!WellFormed(s1) && left == [] && (right != [] || !WellFormed(s2))) ||
    (!WellFormed(s2) && right == [] && (left != [] || !WellFormed(s1)))
  }

  lemma EmptySet()
    ensures SetText([]) == [BAR]
  {
  }

  lemma FirstBar(t: Str, from: nat, to: nat)
    requires from <= to <= |t| && BAR !in t[from..to] && (to < |t| ==> t[to] == BAR)
    ensures BarAt(t[from..]) == to - from
  {
    assert forall i :: from <= i < to ==> t[from..to][i - from] == t[i];
    BarIs(t[from..], to - from);
  }

  lemma StartPending(t: Str, f: Str)
    ensures Pending(t, 0, f, Pieces(t))
  {
    assert t[0..] == t;
  }

  lemma MeetEnd(a: seq<Str>, b: seq<Str>, f1: Str, f2: Str)
    ensures a == [] || b == [] ==> Meet(a, b, f1, f2) == Common([], a, b, f1, f2)
  {
  }

  lemma MeetStep(a: seq<Str>, b: seq<Str>, f1: Str, f2: Str)
    requires a != [] && b != []
    ensures var x, y := Load(a[0], f1), Load(b[0], f2);
            (Compare(x, y) == 0 ==> Meet(a, b, f1, f2) == After([x], Meet(a[1..], b[1..], x, y))) &&
            (Compare(x, y) < 0 ==> Meet(a, b, f1, f2) == Meet(a[1..], b, x, y)) &&
            (Compare(x, y) > 0 ==> Meet(a, b, f1, f2) == Meet(a, b[1..], x, y))
  {
  }

  lemma OneMoreCommon(out: seq<Str>, x: Str, c: Common)
    ensures After(out, After([x], c)) == After(out + [x], c)
    ensures SetText(out + [x]) == SetText(out) + x + [BAR]
  {
    assert out + ([x] + c.list) == out + [x] + c.list;
    TailAppend(out, x);
  }

  // ----- empty elements

  /** A list with every empty element replaced by what is in the buffer when it is compared. */
  function Fill(l: seq<Str>, f: Str): seq<Str> {
    if l == [] then [] else [Load(l[0], f)] + Fill(l[1..], Load(l[0], f))
  }

  /** The merge takes an empty element for the one in front of it, or for what an earlier call left. */
  lemma {:induction false} MeetFills(a: seq<Str>, b: seq<Str>, f1: Str, f2: Str)
    ensures Meet(a, b, f1, f2).list == Merge(Fill(a, f1), Fill(b, f2))
    decreases |a| + |b|
  {
    if a != [] && b != [] {
      var g1, g2 := Load(a[0], f1), Load(b[0], f2);
      FillStep(a, f1);
      FillStep(b, f2);
      hide Fill, Load;
      MeetFills(a[1..], b[1..], g1, g2);
      MeetFills(a[1..], b, g1, g2);
      MeetFills(a, b[1..], g1, g2);
    }
  }

  lemma FillStep(l: seq<Str>, f: Str)
    requires l != []
    ensures var g := Load(l[0], f);
            Fill(l, f) == [g] + Fill(l[1..], g) && Fill(l, f)[1..] == Fill(l[1..], g) && Fill(l, g) == Fill(l, f)
  {
  }

  lemma {:induction false} FillNonEmpty(l: seq<Str>, f: Str)
    requires NonEmpty(l)
    ensures Fill(l, f) == l
  {
    if l != [] {
      FillNonEmpty(l[1..], l[0]);
      assert l == [l[0]] + l[1..];
    }
  }

  /** Without empty elements the buffers do not matter. */
  lemma MeetIsMerge(a: seq<Str>, b: seq<Str>, f1: Str, f2: Str)
    requires NonEmpty(a) && NonEmpty(b)
    ensures Meet(a, b, f1, f2).list == Merge(a, b)
  {
    MeetFills(a, b, f1, f2);
    FillNonEmpty(a, f1);
    FillNonEmpty(b, f2);
  }

  lemma {:induction false} MergeSymmetric(a: seq<Str>, b: seq<Str>)
    ensures Merge(a, b) == Merge(b, a)
    decreases |a| + |b|
  {
    if a != [] && b != [] {
      CompareAntisymmetric(a[0], b[0]);
      MergeSymmetric(a[1..], b[1..]);
      MergeSymmetric(a[1..], b);
      MergeSymmetric(a, b[1..]);
    }
  }

  lemma MeetSymmetric(a: seq<Str>, b: seq<Str>, f1: Str, f2: Str)
    ensures Meet(a, b, f1, f2).list == Meet(b, a, f2, f1).list
  {
    MeetFills(a, b, f1, f2);
    MeetFills(b, a, f2, f1);
    MergeSymmetric(Fill(a, f1), Fill(b, f2));
  }

  lemma {:induction false} MergeMembers(a: seq<Str>, b: seq<Str>, x: Str)
    requires x in Merge(a, b)
    ensures x in a && x in b
    decreases |a| + |b|
  {
    var c := Compare(a[0], b[0]);
    CompareAntisymmetric(a[0], b[0]);
    if c == 0 {
      if x != a[0] { MergeMembers(a[1..], b[1..], x); }
    } else if c < 0 {
      MergeMembers(a[1..], b, x);
    } else {
      MergeMembers(a, b[1..], x);
    }
  }

  lemma {:induction false} FillMembers(l: seq<Str>, f: Str, x: Str)
    requires x in Fill(l, f)
    ensures x == f || x in l
  {
    var g := Load(l[0], f);
    if x != g {
      FillMembers(l[1..], g, x);
    }
  }

  /** The element in front of the first empty one, or `f`. */
  function FrontOfEmpty(l: seq<Str>, f: Str): Str {
    if l == [] || l[0] == [] then f else FrontOfEmpty(l[1..], l[0])
  }

  /** Filling keeps a list sorted. */
  lemma {:induction false} FillSorted(l: seq<Str>, f: Str)
    requires Sorted(Compare, l) && forall k :: 0 <= k < |l| ==> Compare(f, l[k]) <= 0
    ensures Sorted(Compare, [f] + Fill(l, f))
  {
    if l != [] {
      var g := Load(l[0], f);
      FillSorted(l[1..], g);
      CompareAntisymmetric(f, f);
      SortedPrepend(f, [g] + Fill(l[1..], g));
    }
  }

  lemma SortedPrepend(f: Str, s: seq<Str>)
    requires s != [] && Sorted(Compare, s) && Compare(f, s[0]) <= 0
    ensures Sorted(Compare, [f] + s)
  {
    forall k | 0 <= k < |s| ensures Compare(f, s[k]) <= 0 {
      CompareAntisymmetric(s[0], s[0]);
      CompareTransitive(f, s[0], s[k]);
    }
    hide Compare;
  }

  lemma EmptyNext(l: seq<Str>)
    requires Sorted(Compare, l) && |l| >= 2 && l[0] == [] && [] in l[1..]
    ensures l[1] == []
  {
    var k :| 1 <= k < |l| && l[k] == [];
    CompareAntisymmetric(l[1], []);
  }

  /** What filling does to the number of each element: the empty ones become what is in front of them. */
  lemma {:induction false} FillCounts(l: seq<Str>, f: Str, y: Str)
    requires Sorted(Compare, l) && f != []
    ensures multiset(Fill(l, f))[y] ==
            (if y == [] then 0 else multiset(l)[y]) + (if y == FrontOfEmpty(l, f) then multiset(l)[[]] else 0)
  {
    if l != [] {
      var g, rest := Load(l[0], f), l[1..];
      hide Compare;
      FillCounts(rest, g, y);
      assert l == [l[0]] + rest;
      if l[0] == [] && [] in rest { EmptyNext(l); }
    }
  }

  /** If the first element is not empty, filling does not depend on the buffer. */
  lemma FirstFilled(l: seq<Str>, f: Str, y: Str)
    requires Sorted(Compare, l) && l != [] && l[0] != []
    ensures Sorted(Compare, Fill(l, f)) && FrontOfEmpty(l, []) != []
    ensures multiset(Fill(l, f))[y] ==
            (if y == [] then 0 else multiset(l)[y]) + (if y == FrontOfEmpty(l, []) then multiset(l)[[]] else 0)
  {
    assert l == [l[0]] + l[1..];
    FillSorted(l[1..], l[0]);
    FillCounts(l[1..], l[0], y);
    FrontNotEmpty(l[1..], l[0]);
  }

  lemma {:induction false} FrontNotEmpty(l: seq<Str>, f: Str)
    requires f != []
    ensures FrontOfEmpty(l, f) != []
  {
    if l != [] && l[0] != [] { FrontNotEmpty(l[1..], l[0]); }
  }

  lemma NoEmpties(l: seq<Str>)
    ensures NonEmpty(l) <==> multiset(l)[[]] == 0
  {
  }

  /** Empty elements that do no harm: only one list has any, they come after another element, and
      taking them for that one does not make it more common. */
  predicate Harmless(a: seq<Str>, b: seq<Str>) {
    a != [] && a[0] != [] && !NonEmpty(a) && NonEmpty(b) &&
    multiset(b)[FrontOfEmpty(a, [])] <= multiset(a)[FrontOfEmpty(a, [])]
  }

  lemma SameCommon(a: seq<Str>, b: seq<Str>, c: seq<Str>, d: seq<Str>)
    requires Sorted(Compare, a) && Sorted(Compare, b) && Sorted(Compare, c) && Sorted(Compare, d)
    ensures Merge(a, b) == Merge(c, d) <==> multiset(a) * multiset(b) == multiset(c) * multiset(d)
  {
    hide Merge, Compare, Sorted, TotalOrder;
    StringOrder();
    MergeIntersects(a, b);
    MergeIntersects(c, d);
    if multiset(a) * multiset(b) == multiset(c) * multiset(d) { SortedUnique(Compare, Merge(a, b), Merge(c, d)); }
  }

  /** The exact condition for lists that do not start with an empty element. */
  lemma RightBehindFirst(a: seq<Str>, b: seq<Str>, f1: Str, f2: Str)
    requires Sorted(Compare, a) && Sorted(Compare, b) && a != [] && b != [] && a[0] != [] && b[0] != []
    ensures Meet(a, b, f1, f2).list == Merge(a, b) <==>
            (NonEmpty(a) && NonEmpty(b)) || Harmless(a, b) || Harmless(b, a)
  {
    hide Compare, Sorted, Merge, Meet, Fill, NonEmpty, FrontOfEmpty;
    var c, d := Fill(a, f1), Fill(b, f2);
    MeetFills(a, b, f1, f2);
    NoEmpties(a);
    NoEmpties(b);
    FirstFilled(a, f1, []);
    FirstFilled(b, f2, []);
    SameCommon(c, d, a, b);
    var x, y := FrontOfEmpty(a, []), FrontOfEmpty(b, []);
    FirstFilled(a, f1, x);
    FirstFilled(b, f2, x);
    FirstFilled(a, f1, y);
    FirstFilled(b, f2, y);
    if (NonEmpty(a) && NonEmpty(b)) || Harmless(a, b) || Harmless(b, a) {
      forall z ensures (multiset(c) * multiset(d))[z] == (multiset(a) * multiset(b))[z] {
        FirstFilled(a, f1, z);
        FirstFilled(b, f2, z);
      }
    } else if NonEmpty(a) {
      assert (multiset(c) * multiset(d))[y] != (multiset(a) * multiset(b))[y];
    } else if NonEmpty(b) {
      assert (multiset(c) * multiset(d))[x] != (multiset(a) * multiset(b))[x];
    } else {
      assert (multiset(c) * multiset(d))[[]] != (multiset(a) * multiset(b))[[]];
    }
  }

  // ----- buffers that expose empty elements

  /** What a call can leave in a buffer. */
  predicate Feature(f: Str) {
    BAR !in f && |f| <= CL_DYN_STRING_SIZE - 2
  }

  function Large(n: nat): (s: Str)
    ensures |s| == n && BAR !in s
  {
    if n == 0 then [] else [127] + Large(n - 1)
  }

  lemma {:induction false} LargeIsLarge(n: nat, z: Str)
    requires |z| < n
    ensures Compare(Large(n), z) > 0
  {
    if z != [] && z[0] == 127 {
      assert Large(n)[1..] == Large(n - 1);
      LargeIsLarge(n - 1, z[1..]);
    }
  }

  /** A first element that is larger than all of the other list lets it run out. */
  lemma {:induction false} SkipsAll(a: seq<Str>, b: seq<Str>)
    requires a != [] && forall k :: 0 <= k < |b| ==> Compare(a[0], b[k]) > 0
    ensures Merge(a, b) == []
  {
    if b != [] { SkipsAll(a, b[1..]); }
  }

  lemma {:induction false} LengthOfTwo(l: seq<Str>, j: nat, k: nat)
    requires j < k < |l|
    ensures |SetTail(l)| >= |l[j]| + |l[k]| + 2
  {
    if j == 0 { LengthOfOne(l[1..], k - 1); } else { LengthOfTwo(l[1..], j - 1, k - 1); }
  }

  lemma {:induction false} LengthOfOne(l: seq<Str>, k: nat)
    requires k < |l|
    ensures |SetTail(l)| >= |l[k]| + 1
  {
    if k > 0 { LengthOfOne(l[1..], k - 1); }
  }

  /** In a text of admitted length, next to another element every element is short. */
  lemma ShortElements(l: seq<Str>, x: Str)
    requires l != [] && |SetText(l)| <= CL_DYN_STRING_SIZE && x in l
    ensures |x| <= CL_DYN_STRING_SIZE - 2
    ensures x != l[0] ==> |x| + |l[0]| <= CL_DYN_STRING_SIZE - 3
  {
    var k :| 0 <= k < |l| && l[k] == x;
    LengthOfOne(l, k);
    if k > 0 { LengthOfTwo(l, 0, k); }
  }

  lemma BarFree(l: seq<Str>, x: Str)
    requires NoBars(l) && x in l
    ensures BAR !in x
  {
  }

  /** A list that starts with an empty element goes wrong with some buffers, whatever the other list. */
  lemma EmptyFirst(a: seq<Str>, b: seq<Str>) returns (f1: Str, f2: Str)
    requires a != [] && b != [] && a[0] == [] && Sorted(Compare, a) && Sorted(Compare, b) && NoBars(b)
    requires |SetText(a)| <= CL_DYN_STRING_SIZE && |SetText(b)| <= CL_DYN_STRING_SIZE
    ensures Feature(f1) && Feature(f2) && Meet(a, b, f1, f2).list != Merge(a, b)
  {
    hide Compare, Merge, Meet, SetText, Sorted, NoBars, Fill;
    var large, y := Large(CL_DYN_STRING_SIZE - 2), b[0];
    ShortElements(b, y);
    BarFree(b, y);
    if y == [] {
      f1, f2 := large, large;
      NotAnElement(a, large);
      StartsWith(a, b, f1, f2, large);
    } else if y !in a {
      f1, f2 := y, [];
      StartsWith(a, b, f1, f2, y);
    } else {
      f1, f2 := large, [];
      ShortElements(a, y);
      MeetFills(a, b, f1, f2);
      FillStep(a, f1);
      forall k | 0 <= k < |Fill(b, f2)| ensures Compare(large, Fill(b, f2)[k]) > 0 {
        FillMembersOf(b, f2, k);
        ShortElements(b, Fill(b, f2)[k]);
        LargeIsLarge(CL_DYN_STRING_SIZE - 2, Fill(b, f2)[k]);
      }
      SkipsAll(Fill(a, f1), Fill(b, f2));
      MergeIntersects(a, b);
      assert y in multiset(a) * multiset(b);
    }
  }

  lemma FillMembersOf(l: seq<Str>, f: Str, k: nat)
    requires l != [] && l[0] != [] && k < |Fill(l, f)|
    ensures Fill(l, f)[k] in l
  {
    if k > 0 {
      assert Fill(l[1..], l[0])[k - 1] == Fill(l, f)[k];
      FillMembers(l[1..], l[0], Fill(l, f)[k]);
    }
  }

  lemma NotAnElement(a: seq<Str>, x: Str)
    requires a != [] && a[0] == [] && |SetText(a)| <= CL_DYN_STRING_SIZE && |x| == CL_DYN_STRING_SIZE - 2
    ensures x !in a
  {
    if x in a { ShortElements(a, x); }
  }

  /** With `x` compared first on both sides, `x` is copied, which no right result would do. */
  lemma StartsWith(a: seq<Str>, b: seq<Str>, f1: Str, f2: Str, x: Str)
    requires a != [] && b != [] && Load(a[0], f1) == x && Load(b[0], f2) == x && x !in a
    ensures Meet(a, b, f1, f2).list != Merge(a, b)
  {
    CompareAntisymmetric(x, x);
    MeetStep(a, b, f1, f2);
    var list := Meet(a, b, f1, f2).list;
    assert list[0] == x;
    if list == Merge(a, b) { MergeMembers(a, b, x); }
  }

  /** The result is right whatever earlier calls left in the buffers. */
  ghost predicate AlwaysRight(a: seq<Str>, b: seq<Str>) {
    forall f1, f2 :: Feature(f1) && Feature(f2) ==> SetText(Meet(a, b, f1, f2).list) == SetText(Merge(a, b))
  }

  predicate Unaffected(a: seq<Str>, b: seq<Str>) {
    a == [] || b == [] || (NonEmpty(a) && NonEmpty(b)) || Harmless(a, b) || Harmless(b, a)
  }

  lemma SameText(a: seq<Str>, b: seq<Str>, f1: Str, f2: Str)
    requires NoBars(a) && NoBars(b) && Feature(f1) && Feature(f2)
    ensures SetText(Meet(a, b, f1, f2).list) == SetText(Merge(a, b)) ==> Meet(a, b, f1, f2).list == Merge(a, b)
  {
    hide SetText, SetTail, Pieces, Meet, Merge, Fill;
    var list, m := Meet(a, b, f1, f2).list, Merge(a, b);
    MeetFills(a, b, f1, f2);
    forall k | 0 <= k < |list| ensures BAR !in list[k] {
      MergeMembers(Fill(a, f1), Fill(b, f2), list[k]);
      FillMembers(a, f1, list[k]);
    }
    forall k | 0 <= k < |m| ensures BAR !in m[k] { MergeMembers(a, b, m[k]); }
    WellFormedTexts([], list);
    WellFormedTexts([], m);
  }

  lemma RightForAll(a: seq<Str>, b: seq<Str>, f1: Str, f2: Str)
    requires Sorted(Compare, a) && Sorted(Compare, b) && Unaffected(a, b)
    ensures Meet(a, b, f1, f2).list == Merge(a, b)
  {
    hide Compare, Sorted;
    if NonEmpty(a) && NonEmpty(b) {
      MeetIsMerge(a, b, f1, f2);
    } else if a != [] && b != [] {
      RightBehindFirst(a, b, f1, f2);
    }
  }

  lemma WrongForSome(a: seq<Str>, b: seq<Str>) returns (f1: Str, f2: Str)
    requires Sorted(Compare, a) && Sorted(Compare, b) && NoBars(a) && NoBars(b) && !Unaffected(a, b)
    requires |SetText(a)| <= CL_DYN_STRING_SIZE && |SetText(b)| <= CL_DYN_STRING_SIZE
    ensures Feature(f1) && Feature(f2) && Meet(a, b, f1, f2).list != Merge(a, b)
  {
    hide Compare, Sorted, Merge, Meet, SetText, NonEmpty, Harmless, NoBars;
    if a[0] == [] {
      f1, f2 := EmptyFirst(a, b);
    } else if b[0] == [] {
      f2, f1 := EmptyFirst(b, a);
      MeetSymmetric(a, b, f1, f2);
      MergeSymmetric(a, b);
    } else {
      f1, f2 := [], [];
      RightBehindFirst(a, b, f1, f2);
    }
  }

  /** cl_set_intersection is right for two sets whatever earlier calls left in its buffers if and only
      if no empty element can be mistaken: one set is empty, or neither has empty elements, or those
      that one has are harmless. */
  lemma EmptyElements(s1: Str, s2: Str)
    requires Admitted(s1) && Admitted(s2) && WellFormed(s1) && WellFormed(s2)
    requires Sorted(Compare, Elements(s1)) && Sorted(Compare, Elements(s2))
    ensures AlwaysRight(Elements(s1), Elements(s2)) <==> Unaffected(Elements(s1), Elements(s2))
  {
    hide Compare, Sorted, Merge, Meet, SetText, Pieces, Unaffected;
    var a, b := Elements(s1), Elements(s2);
    WellFormedTexts(s1, []);
    WellFormedTexts(s2, []);
    if Unaffected(a, b) {
      forall f1, f2 ensures Meet(a, b, f1, f2).list == Merge(a, b) { RightForAll(a, b, f1, f2); }
    } else {
      var f1, f2 := WrongForSome(a, b);
      SameText(a, b, f1, f2);
    }
  }

  /** An empty element behind a string that starts with a negative character can be harmless: `x` and
      the empty string on one side, `x` alone on the other. */
  lemma HarmlessEmptyElement(x: Str)
    requires x != [] && x[0] < 0
    ensures Sorted(Compare, [x, []]) && !NonEmpty([x, []]) && Unaffected([x, []], [x])
  {
    assert [x, []][1] == [] && Compare(x, []) < 0;
    assert [x, []][1..] == [[]] && FrontOfEmpty([x, []], []) == FrontOfEmpty([[]], x) == x;
    assert multiset([x, []])[x] == 1;
  }

  /** Whatever cl_make_set makes of two inputs split on whitespace, the intersection is the set that
      cl_make_set makes of the common tokens. */
  lemma IntersectionOfMade(s: Str, t: Str, u: Str)
    requires Acceptable(s, true) && Acceptable(t, true) && Acceptable(u, true)
    requires multiset(Tokens(u)) == multiset(Tokens(s)) * multiset(Tokens(t))
    ensures var a, b := Made(s, true), Made(t, true);
            NonEmpty(Elements(a)) && NonEmpty(Elements(b)) &&
            SetText(Merge(Elements(a), Elements(b))) == Made(u, true)
  {
    StringOrder();
    hide Sort, Tokens, Pieces, SetTail, TotalOrder, Merge;
    MadeIsNormal(s, true);
    MadeIsNormal(t, true);
    MadeIsNormal(u, true);
    MadeNonEmpty(s);
    MadeNonEmpty(t);
    var a, b := Elements(Made(s, true)), Elements(Made(t, true));
    MergeIntersects(a, b);
    SortSorts(Compare, Tokens(u));
    SortedUnique(Compare, Merge(a, b), Sort(Compare, Tokens(u)));
  }

  lemma MadeNonEmpty(s: Str)
    requires Acceptable(s, true)
    ensures NonEmpty(Elements(Made(s, true)))
  {
    hide Sort, Tokens, Pieces, SetTail, TotalOrder;
    MadeIsNormal(s, true);
    TokensAreWords(s);
    var l := Elements(Made(s, true));
    forall i | 0 <= i < |l| ensures l[i] != [] {
      assert l[i] in multiset(l);
      assert l[i] in Tokens(s);
    }
  }
}
