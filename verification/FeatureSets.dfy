/** Feature sets, the `|`-delimited values of set attributes: cl_make_set and cl_set_size
    (cl/attributes.c), over the string order cl_strcmp (cl/cdaccess.c). */
module FeatureSets {
  import opened Sorting

  /** A character of a C string, read as a signed char. */
  type Byte = i: int | -128 <= i < 128 && i != 0 witness 1
  type Str = seq<Byte>

  const BAR: Byte := 124
  const CL_DYN_STRING_SIZE: int := 2048

  /** The character at a position, with the terminating zero after the last one. */
  function At(s: Str, i: nat): int {
    if i < |s| then s[i] else 0
  }

  // ----- the order of strings

  function Compare(a: Str, b: Str): int {
    if At(a, 0) != At(b, 0) then At(a, 0) - At(b, 0)
    else if a == [] then 0
    else Compare(a[1..], b[1..])
  }

  /** `a` comes before `b`: at the first difference it has the smaller signed character, or it ends. */
  ghost predicate Precedes(a: Str, b: Str) {
    exists k :: 0 <= k <= |a| && k <= |b| && a[..k] == b[..k] && At(a, k) < At(b, k)
  }

  /** The comparison is the difference at the first place where the strings differ. */
  lemma {:induction false} FirstDifference(a: Str, b: Str) returns (k: nat)
    ensures k <= |a| && k <= |b| && a[..k] == b[..k] && Compare(a, b) == At(a, k) - At(b, k)
    ensures At(a, k) == At(b, k) ==> k == |a| == |b|
  {
    if At(a, 0) != At(b, 0) || a == [] {
      k := 0;
    } else {
      var rest := FirstDifference(a[1..], b[1..]);
      k := rest + 1;
      assert a[..k] == [a[0]] + a[1..][..rest] && b[..k] == [b[0]] + b[1..][..rest];
    }
  }

  /** The sign of the comparison is the order of the strings, character by character. */
  lemma ComparePrecedes(a: Str, b: Str)
    ensures Compare(a, b) < 0 <==>
            exists k :: 0 <= k <= |a| && k <= |b| && a[..k] == b[..k] && At(a, k) < At(b, k)
  {
    var k := FirstDifference(a, b);
    forall j | 0 <= j <= |a| && j <= |b| && a[..j] == b[..j] && At(a, j) < At(b, j) ensures j == k {
      SamePlace(a, b, j, k);
    }
  }

  lemma SamePlace(a: Str, b: Str, j: nat, k: nat)
    requires j <= |a| && j <= |b| && a[..j] == b[..j] && At(a, j) != At(b, j)
    requires k <= |a| && k <= |b| && a[..k] == b[..k] && (At(a, k) == At(b, k) ==> k == |a| == |b|)
    ensures j == k
  {
    AgreeBelow(a, b, j);
    AgreeBelow(a, b, k);
  }

  lemma AgreeBelow(a: Str, b: Str, k: nat)
    requires k <= |a| && k <= |b| && a[..k] == b[..k]
    ensures forall i :: 0 <= i < k ==> At(a, i) == At(b, i)
  {
    forall i | 0 <= i < k ensures a[i] == b[i] { assert a[..k][i] == b[..k][i]; }
  }

  /** cl_strcmp: the difference at the first place where the strings differ. */
  method StrCmp(s1: Str, s2: Str) returns (r: int)
    ensures r == Compare(s1, s2)
    ensures exists k :: 0 <= k <= |s1| && k <= |s2| && s1[..k] == s2[..k] && r == At(s1, k) - At(s2, k) &&
                        (r == 0 ==> k == |s1| == |s2|)
  {
    ghost var _ := FirstDifference(s1, s2);
    var i := 0;
    while At(s1, i) == At(s2, i)
      invariant i <= |s1| && i <= |s2| && Compare(s1[i..], s2[i..]) == Compare(s1, s2)
      decreases |s1| - i
    {
      if At(s1, i) == 0 { return 0; }
      assert s1[i..][1..] == s1[i + 1..] && s2[i..][1..] == s2[i + 1..];
      i := i + 1;
    }
    return At(s1, i) - At(s2, i);
  }

  /** Only equal strings compare as equal, and swapping the strings changes the sign. */
  lemma {:induction false} CompareAntisymmetric(a: Str, b: Str)
    ensures Compare(a, b) == 0 <==> a == b
    ensures Compare(a, b) == -Compare(b, a)
  {
    if a != [] && b != [] && a[0] == b[0] {
      CompareAntisymmetric(a[1..], b[1..]);
      assert a == [a[0]] + a[1..] && b == [b[0]] + b[1..];
    }
  }

  lemma {:induction false} CompareTransitive(a: Str, b: Str, c: Str)
    requires Compare(a, b) <= 0 && Compare(b, c) <= 0
    ensures Compare(a, c) <= 0
  {
    if a != [] && At(a, 0) == At(b, 0) && At(b, 0) == At(c, 0) {
      CompareTransitive(a[1..], b[1..], c[1..]);
    }
  }

  lemma StringOrder()
    ensures TotalOrder(Compare)
  {
    forall a, b ensures Compare(a, b) == 0 <==> a == b { CompareAntisymmetric(a, b); }
    forall a, b ensures Compare(a, b) < 0 <==> Compare(b, a) > 0 { CompareAntisymmetric(a, b); }
    forall a, b, c | Compare(a, b) < 0 && Compare(b, c) < 0 ensures Compare(a, c) < 0 {
      CompareTransitive(a, b, c);
      CompareAntisymmetric(a, b);
      CompareAntisymmetric(a, c);
      CompareAntisymmetric(b, c);
    }
  }

  // ----- the text of a set

  function SetTail(l: seq<Str>): Str {
    if l == [] then [] else l[0] + [BAR] + SetTail(l[1..])
  }

  /** The standard syntax of a list of elements. */
  function SetText(l: seq<Str>): Str {
    [BAR] + SetTail(l)
  }

  /** The place of the first `|`, or the length of the text. */
  function BarAt(t: Str): (n: nat)
    ensures n <= |t| && BAR !in t[..n] && (n < |t| ==> t[n] == BAR)
  {
    if t == [] || t[0] == BAR then 0 else 1 + BarAt(t[1..])
  }

  /** The pieces of a text that end in `|`. */
  function Pieces(t: Str): seq<Str> {
    var n := BarAt(t);
    if n == |t| then [] else [t[..n]] + Pieces(t[n + 1..])
  }

  predicate Closed(t: Str) {
    t == [] || t[|t| - 1] == BAR
  }

  predicate WellFormed(s: Str) {
    s != [] && s[0] == BAR && Closed(s[1..])
  }

  function Elements(s: Str): seq<Str>
    requires s != []
  {
    Pieces(s[1..])
  }

  predicate NoBars(l: seq<Str>) {
    forall i :: 0 <= i < |l| ==> BAR !in l[i]
  }

  lemma BarAfter(x: Str, t: Str)
    requires BAR !in x
    ensures BarAt(x + [BAR] + t) == |x|
  {
    var u := x + [BAR] + t;
    assert forall i :: 0 <= i < |x| ==> u[i] == x[i];
    BarIs(u, |x|);
  }

  lemma {:induction false} BarIs(t: Str, n: nat)
    requires n <= |t| && (forall i :: 0 <= i < n ==> t[i] != BAR) && (n < |t| ==> t[n] == BAR)
    ensures BarAt(t) == n
  {
    if n > 0 { BarIs(t[1..], n - 1); }
  }

  /** Writing and parsing are inverse: lists to texts and back. */
  lemma {:induction false} TextParses(l: seq<Str>)
    requires NoBars(l)
    ensures Pieces(SetTail(l)) == l && Closed(SetTail(l))
  {
    if l != [] {
      TextParses(l[1..]);
      FirstPiece(l[0], SetTail(l[1..]));
      assert l == [l[0]] + l[1..];
    }
  }

  lemma FirstPiece(x: Str, t: Str)
    requires BAR !in x
    ensures Pieces(x + [BAR] + t) == [x] + Pieces(t)
    ensures Closed(t) ==> Closed(x + [BAR] + t)
  {
    var u := x + [BAR] + t;
    BarAfter(x, t);
    assert u[..|x|] == x && u[|x| + 1..] == t;
  }

  /** Texts to lists and back. */
  lemma {:induction false} ParseText(t: Str)
    ensures NoBars(Pieces(t))
    ensures Closed(t) ==> SetTail(Pieces(t)) == t
    decreases |t|
  {
    hide BarAt, Closed;
    var n := BarAt(t);
    if n < |t| {
      var rest := t[n + 1..];
      ParseText(rest);
      if Closed(t) { ClosedRest(t, n + 1); }
      assert t == t[..n] + [BAR] + rest;
      assert Pieces(t)[1..] == Pieces(rest);
      FirstBars(t[..n], Pieces(rest));
    } else {
      assert t[..n] == t;
      ClosedBars(t);
    }
  }

  lemma ClosedRest(u: Str, n: nat)
    requires Closed(u) && n <= |u|
    ensures Closed(u[n..])
  {
  }

  lemma ClosedBars(t: Str)
    requires BAR !in t
    ensures Closed(t) ==> t == []
  {
  }

  /** A text is well-formed exactly if it is the text of a list of elements without `|`. */
  lemma WellFormedTexts(s: Str, l: seq<Str>)
    ensures WellFormed(s) ==> SetText(Elements(s)) == s && NoBars(Elements(s))
    ensures NoBars(l) ==> WellFormed(SetText(l)) && Elements(SetText(l)) == l
  {
    if WellFormed(s) {
      ParseText(s[1..]);
      assert s == [BAR] + s[1..];
    }
    if NoBars(l) {
      TextParses(l);
      assert SetText(l)[1..] == SetTail(l);
    }
  }

  // ----- splitting

  predicate Blank(c: Byte) {
    c == 32 || c == 9 || c == 10
  }

  /** The number of blank characters, or of others, at the beginning. */
  function Span(s: Str, blank: bool): (n: nat)
    ensures n <= |s| && (forall i :: 0 <= i < n ==> Blank(s[i]) == blank) && (n < |s| ==> Blank(s[n]) != blank)
  {
    if s == [] || Blank(s[0]) != blank then 0 else 1 + Span(s[1..], blank)
  }

  /** The maximal runs of characters that are not blank. */
  function Tokens(s: Str): seq<Str>
    decreases |s|
  {
    var rest := s[Span(s, true)..];
    var n := Span(rest, false);
    if n == 0 then [] else [rest[..n]] + Tokens(rest[n..])
  }

  predicate Word(x: Str) {
    x != [] && forall i :: 0 <= i < |x| ==> !Blank(x[i])
  }

  lemma {:induction false} TokensAreWords(s: Str)
    ensures forall x :: x in Tokens(s) ==> Word(x)
    ensures BAR in s <==> !NoBars(Tokens(s))
    decreases |s|
  {
    hide Span;
    var b := Span(s, true);
    var rest := s[b..];
    var n := Span(rest, false);
    NoBarInBlanks(s, b);
    if n == 0 {
      assert rest == [];
    } else {
      TokensAreWords(rest[n..]);
      BarInParts(rest, n);
      FirstBars(rest[..n], Tokens(rest[n..]));
      assert Word(rest[..n]);
    }
  }

  lemma NoBarInBlanks(s: Str, b: nat)
    requires b <= |s| && forall i :: 0 <= i < b ==> Blank(s[i])
    ensures BAR in s <==> BAR in s[b..]
  {
    assert s == s[..b] + s[b..];
    assert forall i :: 0 <= i < b ==> s[..b][i] == s[i];
  }

  lemma BarInParts(s: Str, n: nat)
    requires n <= |s|
    ensures BAR in s <==> BAR in s[..n] || BAR in s[n..]
  {
    assert s == s[..n] + s[n..];
  }

  lemma FirstBars(x: Str, l: seq<Str>)
    ensures NoBars([x] + l) <==> BAR !in x && NoBars(l)
  {
    assert forall i :: 0 <= i < |l| ==> ([x] + l)[i + 1] == l[i];
    assert ([x] + l)[0] == x;
  }

  /** Words with a space after each. */
  function Spaced(l: seq<Str>): Str {
    if l == [] then [] else l[0] + [32] + Spaced(l[1..])
  }

  lemma SpanIs(s: Str, blank: bool, n: nat)
    requires n <= |s| && (forall i :: 0 <= i < n ==> Blank(s[i]) == blank) && (n < |s| ==> Blank(s[n]) != blank)
    ensures Span(s, blank) == n
  {
  }

  lemma SkipBlank(s: Str)
    requires s != [] && Blank(s[0])
    ensures Tokens(s) == Tokens(s[1..])
  {
    assert s[1..][Span(s[1..], true)..] == s[Span(s, true)..];
  }

  /** Every list of words is the list of tokens of its spaced text. */
  lemma {:induction false} TokensOfSpaced(l: seq<Str>)
    requires forall x :: x in l ==> Word(x)
    ensures Tokens(Spaced(l)) == l
  {
    if l != [] {
      assert forall x :: x in l[1..] ==> x in l;
      TokensOfSpaced(l[1..]);
      FirstToken(l[0], Spaced(l[1..]));
      assert l == [l[0]] + l[1..];
    }
  }

  lemma FirstToken(x: Str, t: Str)
    requires Word(x)
    ensures Tokens(x + [32] + t) == [x] + Tokens(t)
  {
    var s := x + [32] + t;
    assert s[..0] + s[0..] == s;
    SpanIs(s, true, 0);
    SpanIs(s, false, |x|);
    var rest := s[|x|..];
    assert s[0..] == s && s[..|x|] == x;
    SkipBlank(rest);
    assert rest[1..] == t;
  }

  /** A text without whitespace is one token, and whitespace separates tokens; with the empty text this
      determines the tokens of every text. */
  lemma {:induction false} TokensSplit(s: Str, c: Byte, t: Str)
    requires c == 32 || c == 9 || c == 10
    ensures Tokens([]) == []
    ensures s != [] && 32 !in s && 9 !in s && 10 !in s ==> Tokens(s) == [s]
    ensures Tokens(s + [c] + t) == Tokens(s) + Tokens(t)
    decreases |s|
  {
    hide Span, Tokens;
    NoTokens();
    if s != [] && 32 !in s && 9 !in s && 10 !in s { OneToken(s); }
    if s == [] {
      assert s + [c] + t == [c] + t && ([c] + t)[1..] == t;
      SkipBlank([c] + t);
    } else if Blank(s[0]) {
      SkipBlank(s);
      SkipBlank(s + [c] + t);
      assert (s + [c] + t)[1..] == s[1..] + [c] + t;
      TokensSplit(s[1..], c, t);
    } else {
      var n := Span(s, false);
      TokensSplit(s[n..], c, t);
      FirstOf(s, n);
      FirstOf(s + [c] + t, n);
      assert (s + [c] + t)[..n] == s[..n] && (s + [c] + t)[n..] == s[n..] + [c] + t;
    }
  }

  lemma OneToken(s: Str)
    requires s != [] && forall i :: 0 <= i < |s| ==> !Blank(s[i])
    ensures Tokens(s) == [s]
  {
    FirstOf(s, |s|);
    NoTokens();
    assert s[..|s|] == s && s[|s|..] == [];
  }

  lemma FirstOf(s: Str, n: nat)
    requires 0 < n <= |s| && (forall i :: 0 <= i < n ==> !Blank(s[i])) && (n < |s| ==> Blank(s[n]))
    ensures Tokens(s) == [s[..n]] + Tokens(s[n..])
  {
    assert s[0..] == s && s[0..n] == s[..n];
    TokensStep(s, 0, 0, n);
  }

  /** The first loop of cl_make_set: split on whitespace. */
  method SplitBlank(s: Str) returns (l: seq<Str>)
    ensures l == Tokens(s)
  {
    hide Tokens, Span;
    var p := 0;
    l := [];
    assert s[0..] == s;
    NoTokens();
    while p < |s|
      invariant p <= |s| && l + Tokens(s[p..]) == Tokens(s)
    {
      ghost var from := p;
      while p < |s| && Blank(s[p])
        invariant from <= p <= |s| && forall i :: from <= i < p ==> Blank(s[i])
      {
        p := p + 1;
      }
      var mark := p;
      while p < |s| && !Blank(s[p])
        invariant mark <= p <= |s| && forall i :: mark <= i < p ==> !Blank(s[i])
      {
        p := p + 1;
      }
      TokensStep(s, from, mark, p);
      var cut := s[mark..p];
      if p < |s| {
        SkipBlank(s[p..]);
        assert s[p..][1..] == s[p + 1..];
        p := p + 1;
        l := l + [cut];
      } else if p != mark {
        l := l + [cut];
      }
    }
    assert s[p..] == [];
  }

  lemma NoTokens()
    ensures Tokens([]) == []
  {
  }

  lemma TokensStep(s: Str, from: nat, mark: nat, p: nat)
    requires from <= mark <= p <= |s| && (mark < |s| ==> mark < p) && (p < |s| ==> Blank(s[p]))
    requires (forall i :: from <= i < mark ==> Blank(s[i])) && forall i :: mark <= i < p ==> !Blank(s[i])
    ensures Tokens(s[from..]) == (if p == mark then [] else [s[mark..p]]) + Tokens(s[p..])
  {
    var t := s[from..];
    SpanIs(t, true, mark - from);
    var rest := t[mark - from..];
    assert rest == s[mark..];
    SpanIs(rest, false, p - mark);
    assert rest[..p - mark] == s[mark..p] && rest[p - mark..] == s[p..];
    assert p == mark ==> s[p..] == [];
  }

  /** The second loop of cl_make_set: cut a text at its `|` characters. */
  method CutBars(s: Str) returns (l: seq<Str>, ok: bool)
    ensures ok == WellFormed(s)
    ensures ok ==> l == Elements(s)
  {
    hide Pieces, BarAt;
    l, ok := [], false;
    NoPieces();
    if |s| > 0 && s[0] == BAR {
      var mark, p := 1, 1;
      while p < |s|
        invariant 1 <= mark <= p <= |s| && BAR !in s[mark..p] && s[mark - 1] == BAR
        invariant l + Pieces(s[mark..]) == Pieces(s[1..])
      {
        if s[p] == BAR {
          PiecesStep(s, mark, p);
          l := l + [s[mark..p]];
          p := p + 1;
          mark := p;
        } else {
          assert s[mark..p + 1] == s[mark..p] + [s[p]];
          p := p + 1;
        }
      }
      assert s[p..] == [];
      if p == mark {
        ok := true;
      } else {
        assert s[mark..p][p - mark - 1] == s[|s| - 1];
      }
    }
  }

  lemma NoPieces()
    ensures Pieces([]) == []
  {
  }

  lemma PiecesStep(s: Str, mark: nat, p: nat)
    requires mark <= p < |s| && s[p] == BAR && BAR !in s[mark..p]
    ensures Pieces(s[mark..]) == [s[mark..p]] + Pieces(s[p + 1..])
  {
    assert s[mark..] == s[mark..p] + [BAR] + s[p + 1..];
    FirstPiece(s[mark..p], s[p + 1..]);
  }

  // ----- cl_make_set

  /** The elements that cl_make_set finds, if there is no error. */
  function Parsed(s: Str, split: bool): seq<Str>
    requires split || s != []
  {
    if split then Tokens(s) else Elements(s)
  }

  predicate Acceptable(s: Str, split: bool) {
    if split then BAR !in s else WellFormed(s)
  }

  /** The text that cl_make_set returns. */
  function Made(s: Str, split: bool): Str
    requires Acceptable(s, split)
  {
    SetText(Sort(Compare, Parsed(s, split)))
  }

  lemma ParsedNoBars(s: Str, split: bool)
    requires Acceptable(s, split)
    ensures NoBars(Parsed(s, split))
  {
    if split { TokensAreWords(s); } else { WellFormedTexts(s, []); }
  }

  /** A C string in memory: the characters and the terminating zero, with no room to spare. */
  ghost predicate Holds(a: array<int>, s: Str)
    reads a
  {
    a.Length == |s| + 1 && a[|s|] == 0 && forall i :: 0 <= i < |s| ==> a[i] == s[i]
  }

  /** cl_make_set; cl_string_list_qsort is `Sort`. */
  method MakeSet(s: Str, split: bool) returns (ok: bool, set_: array<int>)
    ensures ok == Acceptable(s, split)
    ensures ok ==> Holds(set_, Made(s, split)) && WellFormed(Made(s, split))
    ensures ok ==> var l := Elements(Made(s, split));
                   multiset(l) == multiset(Parsed(s, split)) && forall i, j :: 0 <= i < j < |l| ==> !Precedes(l[j], l[i])
  {
    hide Sort, Tokens, Pieces, SetTail, TotalOrder, Precedes, WellFormed, Sorted;
    if Acceptable(s, split) { MadeIsOrdered(s, split); }
    var l;
    if split {
      l := SplitBlank(s);
      ok := true;
    } else {
      l, ok := CutBars(s);
    }
    var found := AnyBars(l);
    if ok && !split { ParsedNoBars(s, split); }
    if found { ok := false; }
    if split { TokensAreWords(s); }
    if !ok {
      set_ := new int[0];
      return;
    }
    l := Sort(Compare, l);
    set_ := WriteSet(l);
  }

  /** The check of cl_make_set for elements that contain a `|`. */
  method AnyBars(l: seq<Str>) returns (found: bool)
    ensures found == !NoBars(l)
  {
    found := false;
    for i := 0 to |l|
      invariant found == !NoBars(l[..i])
    {
      assert l[..i + 1] == l[..i] + [l[i]];
      if BAR in l[i] { found := true; }
    }
    assert l[..|l|] == l;
  }

  function TailLength(l: seq<Str>): nat {
    if l == [] then 0 else |l[0]| + 1 + TailLength(l[1..])
  }

  lemma {:induction false} TailAppend(l: seq<Str>, x: Str)
    ensures SetTail(l + [x]) == SetTail(l) + x + [BAR]
    ensures |SetTail(l)| == TailLength(l)
  {
    if l == [] {
      assert [x][1..] == [] && l + [x] == [x];
      assert SetTail([x]) == x + [BAR] + SetTail([x][1..]);
    } else {
      assert (l + [x])[1..] == l[1..] + [x] && (l + [x])[0] == l[0];
      TailAppend(l[1..], x);
      TailUnfold(l + [x]);
      Chained(l[0], SetTail(l[1..]), x);
    }
  }

  lemma TailUnfold(l: seq<Str>)
    requires l != []
    ensures SetTail(l) == l[0] + [BAR] + SetTail(l[1..])
  {
  }

  lemma Chained(x: Str, t: Str, y: Str)
    ensures x + [BAR] + (t + y + [BAR]) == x + [BAR] + t + y + [BAR]
  {
  }

  /** The loops of cl_make_set that measure the set string, allocate it and fill it. */
  method WriteSet(l: seq<Str>) returns (set_: array<int>)
    ensures fresh(set_) && Holds(set_, SetText(l))
  {
    hide SetTail;
    var sl := 2;
    EmptyTail();
    assert l[..0] == [];
    for i := 0 to |l|
      invariant sl == 2 + |SetTail(l[..i])|
      invariant i == 0 ==> SetTail(l[..i]) == []
    {
      EmptyTail();
      assert l[..i + 1] == l[..i] + [l[i]];
      TailAppend(l[..i], l[i]);
      sl := sl + |l[i]| + 1;
    }
    EmptyTail();
    assert l[..|l|] == l;
    set_ := new int[sl](_ => 0);
    set_[0] := BAR;
    var p := 1;
    for i := 0 to |l|
      invariant set_.Length == sl == 2 + |SetTail(l)|
      invariant p == 1 + |SetTail(l[..i])| && p + |SetTail(l[i..])| == sl - 1
      invariant set_[0] == BAR && forall j :: 1 <= j < p ==> set_[j] == SetTail(l[..i])[j - 1]
    {
      TailSplit(l, i);
      ghost var before := SetTail(l[..i]);
      for j := 0 to |l[i]|
        invariant set_[0] == BAR && forall j :: 1 <= j < p ==> set_[j] == before[j - 1]
        invariant forall k :: 0 <= k < j ==> set_[p + k] == l[i][k]
      {
        set_[p + j] := l[i][j];
      }
      set_[p + |l[i]|] := 0;
      p := p + |l[i]|;
      set_[p] := BAR;
      p := p + 1;
    }
    assert l[|l|..] == [];
    set_[p] := 0;
  }

  lemma EmptyTail()
    ensures SetTail([]) == []
  {
  }

  lemma TailSplit(l: seq<Str>, i: nat)
    requires i < |l|
    ensures SetTail(l[..i + 1]) == SetTail(l[..i]) + l[i] + [BAR]
    ensures |SetTail(l[i..])| == |l[i]| + 1 + |SetTail(l[i + 1..])|
  {
    assert l[..i + 1] == l[..i] + [l[i]];
    TailAppend(l[..i], l[i]);
    assert l[i..][1..] == l[i + 1..];
  }

  /** What cl_make_set returns is a normal form: a well-formed text whose elements are the sorted
      tokens of the input, and which cl_make_set leaves as it is. */
  lemma MadeIsNormal(s: Str, split: bool)
    requires Acceptable(s, split)
    ensures var t := Made(s, split);
            WellFormed(t) && Sorted(Compare, Elements(t)) && multiset(Elements(t)) == multiset(Parsed(s, split)) &&
            Made(t, false) == t
  {
    StringOrder();
    hide Sort, Tokens, Pieces, SetTail, TotalOrder;
    var l := Parsed(s, split);
    ParsedNoBars(s, split);
    SortSorts(Compare, l);
    var r := Sort(Compare, l);
    forall i | 0 <= i < |r| ensures BAR !in r[i] {
      assert r[i] in multiset(r);
      assert r[i] in l;
    }
    WellFormedTexts([], r);
    SortSorts(Compare, r);
    SortedUnique(Compare, Sort(Compare, r), r);
  }

  /** The elements stand in the order of their characters. */
  lemma MadeIsOrdered(s: Str, split: bool)
    requires Acceptable(s, split)
    ensures var t := Made(s, split);
            WellFormed(t) && multiset(Elements(t)) == multiset(Parsed(s, split)) &&
            forall i, j :: 0 <= i < j < |Elements(t)| ==> !Precedes(Elements(t)[j], Elements(t)[i])
  {
    hide Made, Compare, Precedes, Pieces;
    MadeIsNormal(s, split);
    var l := Elements(Made(s, split));
    forall i, j | 0 <= i < j < |l| ensures !Precedes(l[j], l[i]) {
      CompareAntisymmetric(l[i], l[j]);
      NotPreceded(l[i], l[j]);
    }
  }

  lemma NotPreceded(a: Str, b: Str)
    requires Compare(b, a) >= 0
    ensures !Precedes(b, a)
  {
    ComparePrecedes(b, a);
  }

  /** Two inputs give the same text exactly if they have the same elements, as often. */
  lemma MadeIsCanonical(s: Str, splitS: bool, t: Str, splitT: bool)
    requires Acceptable(s, splitS) && Acceptable(t, splitT)
    ensures Made(s, splitS) == Made(t, splitT) <==> multiset(Parsed(s, splitS)) == multiset(Parsed(t, splitT))
  {
    StringOrder();
    hide Sort, Tokens, Pieces, SetTail, TotalOrder;
    MadeIsNormal(s, splitS);
    MadeIsNormal(t, splitT);
    var a, b := Sort(Compare, Parsed(s, splitS)), Sort(Compare, Parsed(t, splitT));
    SortSorts(Compare, Parsed(s, splitS));
    SortSorts(Compare, Parsed(t, splitT));
    if multiset(Parsed(s, splitS)) == multiset(Parsed(t, splitT)) { SortedUnique(Compare, a, b); }
  }

  // ----- cl_set_size

  function BarCount(t: Str): nat {
    if t == [] then 0 else BarCount(t[..|t| - 1]) + if t[|t| - 1] == BAR then 1 else 0
  }

  lemma {:induction false} BarCountAppend(a: Str, b: Str)
    ensures BarCount(a + b) == BarCount(a) + BarCount(b)
  {
    if b == [] {
      assert a + b == a;
    } else {
      var n := |b| - 1;
      assert (a + b)[..|a + b| - 1] == a + b[..n];
      BarCountAppend(a, b[..n]);
    }
  }

  lemma {:induction false} BarCountNone(a: Str)
    requires BAR !in a
    ensures BarCount(a) == 0
  {
    if a != [] { BarCountNone(a[..|a| - 1]); }
  }

  lemma {:induction false} OneBarEach(t: Str)
    ensures BarCount(t) == |Pieces(t)|
    decreases |t|
  {
    hide BarAt, BarCount;
    var n := BarAt(t);
    if n == |t| {
      assert t[..n] == t;
      BarCountNone(t);
    } else {
      FirstBarCounts(t, n);
      OneBarEach(t[n + 1..]);
    }
  }

  lemma FirstBarCounts(t: Str, n: nat)
    requires n < |t| && BAR !in t[..n] && t[n] == BAR
    ensures BarCount(t) == 1 + BarCount(t[n + 1..])
  {
    BarCountNone(t[..n]);
    assert BarCount([BAR]) == 1;
    hide BarCount;
    assert t == t[..n] + ([BAR] + t[n + 1..]);
    BarCountAppend(t[..n], [BAR] + t[n + 1..]);
    BarCountAppend([BAR], t[n + 1..]);
  }

  /** cl_set_size: the number of elements, or -1 if the text is not a set. */
  method SetSize(s: Str) returns (count: int)
    ensures count == if WellFormed(s) then |Elements(s)| else -1
  {
    hide Pieces;
    if At(s, 0) != BAR { return -1; }
    var i := 1;
    count := 0;
    while i < |s|
      invariant 1 <= i <= |s| && count == BarCount(s[1..i])
    {
      assert s[1..i + 1][..i - 1] == s[1..i] && s[1..i + 1][i - 1] == s[i];
      if s[i] == BAR { count := count + 1; }
      i := i + 1;
    }
    if s[i - 1] != BAR { return -1; }
    OneBarEach(s[1..]);
    assert s[1..i] == s[1..];
  }
}
