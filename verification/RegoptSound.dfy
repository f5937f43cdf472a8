/** Grain soundness: every string in the full-match language of an accepted regex contains one of
    the stored grains, where the anchors say it does. */
module RegoptSound {
  import opened RegexSyntax
  import opened RegoptReaders
  import opened RegoptParse
  import opened RegoptTree

  predicate OccursAt(g: Text, w: Text, i: int)
  {
    0 <= i <= |w| - |g| && w[i..i + |g|] == g
  }

  ghost predicate Occurs(g: Text, w: Text)
  {
    exists i :: OccursAt(g, w, i)
  }

  predicate EndsWith(g: Text, w: Text)
  {
    |g| <= |w| && w[|w| - |g|..] == g
  }

  /** Grain `g` accounts for `w` under the anchors. */
  ghost predicate HitBy(g: Text, anchorStart: bool, anchorEnd: bool, w: Text)
  {
    Occurs(g, w) && (anchorStart ==> g <= w) && (anchorEnd ==> EndsWith(g, w))
  }

  ghost predicate Hit(gs: seq<Text>, anchorStart: bool, anchorEnd: bool, w: Text)
  {
    exists k :: 0 <= k < |gs| && HitBy(gs[k], anchorStart, anchorEnd, w)
  }

  // ----- what the literals at the front of a branch match

  /** The strings matched by one quantified symbol, by count. */
  function Symbols(c: Char, q: Quant, n: nat): Text
  {
    if LiteralBraces(q) then [c] + BraceText(q.body, n) else Repeat(c, n)
  }

  /** The strings matched by literals, by the count of the quantifier of the last symbol. */
  function Image(l: TreeLiterals, n: nat): Text
  {
    if l.text == [] then [] else l.text[..|l.text| - 1] + Symbols(l.text[|l.text| - 1], l.q, n)
  }

  lemma {:induction false} PowerOfLiteral(lang: Lang, a: Atom, n: nat, s: Text)
    requires a.Lit? || a.EscLit?
    ensures InPower(lang, a, n, s) <==> s == Repeat(a.c, n)
  {
    if n > 0 {
      if InPower(lang, a, n, s) {
        var j :| 0 <= j <= |s| && InAtom(lang, a, s[..j]) && InPower(lang, a, n - 1, s[j..]);
        PowerOfLiteral(lang, a, n - 1, s[j..]);
        assert s == s[..j] + s[j..];
      }
      if s == Repeat(a.c, n) {
        assert s[..1] == [a.c] && s[1..] == Repeat(a.c, n - 1);
        PowerOfLiteral(lang, a, n - 1, s[1..]);
        assert InAtom(lang, a, s[..1]) && InPower(lang, a, n - 1, s[1..]);
      }
    }
  }

  lemma ItemOfLiteral(lang: Lang, i: Item, s: Text) returns (n: nat)
    requires (i.atom.Lit? || i.atom.EscLit?) && InItem(lang, i, s)
    ensures CountOk(i.q, i.mode, n) && s == Symbols(i.atom.c, i.q, n)
  {
    hide CountOk;
    n :| CountOk(i.q, i.mode, n) && InCount(lang, i, n, s);
    CountOfLiteral(lang, i, n, s);
  }

  lemma CountOfLiteral(lang: Lang, i: Item, n: nat, s: Text)
    requires i.atom.Lit? || i.atom.EscLit?
    ensures InCount(lang, i, n, s) <==> s == Symbols(i.atom.c, i.q, n)
  {
    if LiteralBraces(i.q) {
      if InCount(lang, i, n, s) {
        var j :| 0 <= j <= |s| && InAtom(lang, i.atom, s[..j]) && s[j..] == BraceText(i.q.body, n);
        assert s == s[..j] + s[j..];
      }
      assert Symbols(i.atom.c, i.q, n)[1..] == BraceText(i.q.body, n);
      assert s == Symbols(i.atom.c, i.q, n) ==> s[..1] == [i.atom.c] && InAtom(lang, i.atom, s[..1]);
    } else {
      PowerOfLiteral(lang, i.atom, n, s);
    }
  }

  lemma {:induction false} LiteralParts(lang: Lang, b: Branch, w: Text) returns (n: nat, u: Text)
    requires InBranch(lang, b, w)
    ensures var l := LeadingLiterals(b);
            CountOk(l.q, l.mode, n) && w == Image(l, n) + u && InBranch(lang, l.rest, u)
  {
    hide InItem, CountOk, Image;
    var l := LeadingLiterals(b);
    if l.text == [] {
      n, u := 1, w;
      NoLiterals(l, w);
    } else {
      var i, t := b.head, b.tail;
      var j :| 0 <= j <= |w| && InItem(lang, i, w[..j]) && InBranch(lang, t, w[j..]);
      n := ItemOfLiteral(lang, i, w[..j]);
      u := w[j..];
      assert w == w[..j] + u;
      if i.q == Once {
        OnceIsOne(i.q, i.mode, n);
        var n', u' := LiteralParts(lang, t, u);
        OnceThen(l, LeadingLiterals(t), i.atom.c, n', w[..j], u');
        if LeadingLiterals(t).text != [] { n := n'; }
        u := u';
      } else {
        OneRepeated(l, i.atom.c, n);
      }
    }
  }

  lemma OnceIsOne(q: Quant, m: Mode, n: nat)
    requires CountOk(q, m, n)
    ensures q == Once ==> n == 1
  {
  }

  lemma NoLiterals(l: TreeLiterals, w: Text)
    requires l.text == [] && l.q == Once
    ensures w == Image(l, 1) + w && CountOk(l.q, l.mode, 1)
  {
  }

  lemma OneRepeated(l: TreeLiterals, c: Char, n: nat)
    requires l.text == [c]
    ensures Image(l, n) == Symbols(c, l.q, n)
  {
    assert [] + Symbols(c, l.q, n) == Symbols(c, l.q, n);
  }

  lemma OnceThen(l: TreeLiterals, m: TreeLiterals, c: Char, n: nat, x: Text, u: Text)
    requires l.text == [c] + m.text && l.q == m.q && l.mode == m.mode && CountOk(l.q, l.mode, n)
    requires x == Symbols(c, Once, 1) && (m.text == [] ==> m.q == Once)
    ensures var k := if m.text == [] then 1 else n;
            x + (Image(m, n) + u) == Image(l, k) + u && CountOk(l.q, l.mode, k)
  {
    assert x == [c];
    if m.text != [] {
      assert l.text[..|l.text| - 1] == [c] + m.text[..|m.text| - 1];
      assert Image(l, n) == [c] + Image(m, n);
    } else {
      assert Image(l, 1) == [c];
    }
  }

  lemma MandatoryCounts(q: Quant, m: Mode, n: nat)
    requires CountOk(q, m, n) && Mandatory(q) && !LiteralBraces(q)
    ensures n >= 1
  {
    if q.Braces? {
      var k := CommaAt(q.body);
      LeadingDigit(q.body[..k]);
      assert q.body[..k][0] == q.body[0];
      assert k == |q.body| ==> q.body[..k] == q.body;
    }
  }

  lemma {:induction false} LeadingDigit(d: Text)
    ensures d != [] && '1' <= d[0] <= '9' ==> Number(d) >= 1
  {
    if |d| > 1 {
      LeadingDigit(d[..|d| - 1]);
      assert d[..|d| - 1][0] == d[0];
    }
  }

  lemma GrainPrefix(l: TreeLiterals, n: nat)
    requires CountOk(l.q, l.mode, n)
    ensures GrainOf(l) <= Image(l, n)
  {
    if l.text != [] && LiteralBraces(l.q) {
      var m := |l.text| - 1;
      assert Image(l, n)[..m] == l.text[..m] && Image(l, n)[m] == l.text[m];
      assert Image(l, n)[..m + 1] == l.text;
    } else if l.text != [] && Mandatory(l.q) {
      MandatoryCounts(l.q, l.mode, n);
      var m := |l.text| - 1;
      assert Image(l, n)[..m] == l.text[..m];
      assert Image(l, n)[..m + 1] == l.text;
    }
  }

  // ----- the end anchor

  /** The grain is followed by nothing that can lengthen the match behind it: the last symbol is
      not repeated, or repeated just as often as the grain has it, or the grain has no other. */
  ghost predicate ExactTail(l: TreeLiterals)
  {
    if LiteralBraces(l.q) then forall n: nat :: CountOk(l.q, l.mode, n) ==> EndsWith(GrainOf(l), Image(l, n))
    else
      l.text == [] ||
      (forall n: nat :: CountOk(l.q, l.mode, n) ==> n == if Mandatory(l.q) then 1 else 0) ||
      forall k :: 0 <= k < |l.text| ==> l.text[k] == l.text[|l.text| - 1]
  }

  lemma ExactTailEnds(l: TreeLiterals, n: nat)
    requires ExactTail(l) && CountOk(l.q, l.mode, n)
    ensures EndsWith(GrainOf(l), Image(l, n))
  {
    GrainPrefix(l, n);
    if l.text != [] && !LiteralBraces(l.q) {
      var w, g := Image(l, n), GrainOf(l);
      if forall k :: 0 <= k < |l.text| ==> l.text[k] == l.text[|l.text| - 1] {
        forall k | 0 <= k < |w| ensures w[k] == l.text[|l.text| - 1] {}
      } else {
        assert |w| == |g|;
      }
    }
  }

  /** A string that is short enough ends a concatenation only if it ends the second part. */
  lemma EndsLater(g: Text, v: Text, w: Text)
    requires |g| <= |w|
    ensures EndsWith(g, v + w) <==> EndsWith(g, w)
  {
    assert (v + w)[|v + w| - |g|..] == w[|w| - |g|..];
  }

  /** Without it the claim fails as soon as another count is possible. */
  lemma InexactTailFails(l: TreeLiterals) returns (n: nat)
    requires !ExactTail(l)
    ensures CountOk(l.q, l.mode, n) && forall v: Text :: !EndsWith(GrainOf(l), v + Image(l, n))
  {
    if LiteralBraces(l.q) {
      n :| CountOk(l.q, l.mode, n) && !EndsWith(GrainOf(l), Image(l, n));
    } else {
      n := LongerTailFails(l);
    }
    GrainPrefix(l, n);
    forall v: Text ensures !EndsWith(GrainOf(l), v + Image(l, n)) { EndsLater(GrainOf(l), v, Image(l, n)); }
  }

  lemma LongerTailFails(l: TreeLiterals) returns (n: nat)
    requires !ExactTail(l) && !LiteralBraces(l.q)
    ensures CountOk(l.q, l.mode, n) && !EndsWith(GrainOf(l), Image(l, n))
  {
    n :| CountOk(l.q, l.mode, n) && n != if Mandatory(l.q) then 1 else 0;
    if Mandatory(l.q) { MandatoryCounts(l.q, l.mode, n); }
    hide CountOk, Mandatory, Image, EndsWith;
    assert |GrainOf(l)| == |l.text| - if Mandatory(l.q) then 0 else 1;
    var m, g, w := |l.text| - 1, GrainOf(l), Image(l, n);
    if EndsWith(g, w) {
      var d := n - (|g| - m);
      forall j | 0 <= j < m ensures l.text[j] == if j + d < m then l.text[j + d] else l.text[m] {
        ShiftedSymbol(l, n, j);
      }
      forall k | 0 <= k < m ensures l.text[k] == l.text[m] { SameThroughout(l.text, d, k); }
    }
  }

  lemma {:induction false} SameThroughout(t: Text, d: nat, k: nat)
    requires d > 0 && k < |t|
    requires var m := |t| - 1; forall j :: 0 <= j < m ==> t[j] == if j + d < m then t[j + d] else t[m]
    ensures t[k] == t[|t| - 1]
    decreases |t| - k
  {
    assert k < |t| - 1 ==> t[k] == if k + d < |t| - 1 then t[k + d] else t[|t| - 1];
    if k + d < |t| - 1 { SameThroughout(t, d, k + d); }
  }

  lemma ShiftedSymbol(l: TreeLiterals, n: nat, j: nat)
    requires CountOk(l.q, l.mode, n) && l.text != [] && !LiteralBraces(l.q)
    requires j < |l.text| - 1 && EndsWith(GrainOf(l), Image(l, n))
    requires n > if Mandatory(l.q) then 1 else 0
    ensures var m, d := |l.text| - 1, n - (|GrainOf(l)| - (|l.text| - 1));
            l.text[j] == if j + d < m then l.text[j + d] else l.text[m]
  {
    var m, g, w := |l.text| - 1, GrainOf(l), Image(l, n);
    var d := n - (|g| - m);
    assert |w| - |g| == d;
    assert g[j] == w[|w| - |g|..][j] == w[d + j];
  }

  // ----- branches and alternatives

  lemma {:induction false} FoundParts(lang: Lang, b: Branch, w: Text) returns (v: Text, n: nat, u: Text)
    requires InBranch(lang, b, w) && FindInBranch(b).TreeFound?
    ensures var f := FindInBranch(b);
            CountOk(f.literals.q, f.literals.mode, n) && w == v + (Image(f.literals, n) + u) &&
            InBranch(lang, f.literals.rest, u) && (!f.skipped ==> v == [])
  {
    hide InItem, CountOk, Image, WildAtom;
    var l := LeadingLiterals(b);
    if GrainOf(l) != [] {
      n, u := LiteralParts(lang, b, w);
      v := [];
    } else {
      var j :| 0 <= j <= |w| && InItem(lang, b.head, w[..j]) && InBranch(lang, b.tail, w[j..]);
      v, n, u := FoundParts(lang, b.tail, w[j..]);
      v := w[..j] + v;
      assert w == w[..j] + w[j..];
    }
  }

  lemma PartsHit(g: Text, v: Text, image: Text, u: Text, s: bool, e: bool)
    requires g <= image && (s ==> v == []) && (e ==> u == [] && EndsWith(g, image))
    ensures HitBy(g, s, e, v + (image + u))
  {
    var w := v + (image + u);
    assert OccursAt(g, w, |v|);
    if s { assert w == image + u; }
    if e { assert w == v + image; assert w[|w| - |g|..] == image[|image| - |g|..]; }
  }

  // ----- the literals that the grains at the end of a match are read from

  function LitsOf(b: Branch): seq<TreeLiterals>
  {
    match FindInBranch(b) case TreeMissing => [] case TreeFound(_, l) => [l]
  }

  function AltLits(a: Alts): seq<TreeLiterals>
  {
    match a case Last(b) => LitsOf(b) case Or(b, more) => LitsOf(b) + AltLits(more)
  }

  /** The literals at the end of a branch: its last run, or those of the alternatives of a group that
      ends it and has no quantifier. */
  function EndOfBranch(b: Branch): seq<TreeLiterals>
  {
    match b
    case Nil => []
    case Cons(i, t) =>
      var l := LeadingLiterals(b);
      if GrainOf(l) != [] then
        LiteralsShrink(b);
        if l.rest == Nil then [l] else EndOfBranch(l.rest)
      else if t != Nil then EndOfBranch(t)
      else if i.q == Once && i.atom.Group? then AltLits(i.atom.alts)
      else []
  }

  /** Whether the analysis takes the regex for a bare disjunction. */
  predicate Bare(a: Alts)
  {
    !StartsWithGroup(a) && FindInAlts(a, [], true, true).TreeComplete?
  }

  function EndLiterals(a: Alts): seq<TreeLiterals>
  {
    if Bare(a) then AltLits(a) else match a case Last(b) => EndOfBranch(b) case Or(_, _) => []
  }

  /** The end-anchor hypothesis: literals that end their branch have a tail of fixed shape. */
  ghost predicate ExactEnds(ls: seq<TreeLiterals>)
  {
    forall k :: 0 <= k < |ls| && ls[k].rest == Nil ==> ExactTail(ls[k])
  }

  lemma EndsOfMore(x: seq<TreeLiterals>, y: seq<TreeLiterals>)
    requires ExactEnds(x + y)
    ensures ExactEnds(x) && ExactEnds(y)
  {
    hide ExactTail;
    assert forall k :: 0 <= k < |y| ==> (x + y)[|x| + k] == y[k];
    assert forall k :: 0 <= k < |x| ==> (x + y)[k] == x[k];
  }

  lemma {:induction false} AltsOnlyWeaken(a: Alts, gs: seq<Text>, s: bool, e: bool)
    ensures var d := FindInAlts(a, gs, s, e);
            d.TreeComplete? ==> gs <= d.grains && (d.alignStart ==> s) && (d.alignEnd ==> e)
  {
    hide FindInBranch, GrainOf, WildBranch;
    if a.Or? {
      var f := FindInBranch(a.b);
      if f.TreeFound? {
        AltsOnlyWeaken(a.more, gs + [GrainOf(f.literals)], s && !f.skipped, e && f.literals.rest == Nil);
      }
    }
  }

  lemma BranchHit(lang: Lang, b: Branch, w: Text, s: bool, e: bool)
    requires InBranch(lang, b, w) && FindInBranch(b).TreeFound?
    requires s ==> !FindInBranch(b).skipped
    requires e ==> FindInBranch(b).literals.rest == Nil && ExactTail(FindInBranch(b).literals)
    ensures HitBy(GrainOf(FindInBranch(b).literals), s, e, w)
  {
    var l := FindInBranch(b).literals;
    var v, n, u := FoundParts(lang, b, w);
    GrainPrefix(l, n);
    if e { ExactTailEnds(l, n); }
    PartsHit(GrainOf(l), v, Image(l, n), u, s, e);
  }

  lemma {:induction false} AltsHit(lang: Lang, a: Alts, w: Text, gs: seq<Text>, s: bool, e: bool)
    requires InAlts(lang, a, w)
    ensures var d := FindInAlts(a, gs, s, e);
            d.TreeComplete? ==> Hit(d.grains, d.alignStart, d.alignEnd && ExactEnds(AltLits(a)), w)
  {
    hide FindInBranch, GrainOf, WildBranch, ExactTail, InBranch, HitBy, ExactEnds;
    var d := FindInAlts(a, gs, s, e);
    if d.TreeComplete? {
      var b := match a case Last(b) => b case Or(b, _) => b;
      var f := FindInBranch(b);
      var gs', s', e' := gs + [GrainOf(f.literals)], s && !f.skipped, e && f.literals.rest == Nil;
      var exact := ExactEnds(AltLits(a));
      if a.Or? {
        AltsOnlyWeaken(a.more, gs', s', e');
        if exact { EndsOfMore(LitsOf(b), AltLits(a.more)); }
      }
      if InBranch(lang, b, w) {
        if exact && f.literals.rest == Nil { FirstExact(f.literals); }
        BranchHit(lang, b, w, d.alignStart, d.alignEnd && exact);
        assert d.grains[|gs|] == gs'[|gs|];
      } else {
        AltsHit(lang, a.more, w, gs', s', e');
        WeakerEnd(d.grains, d.alignStart, d.alignEnd && ExactEnds(AltLits(a.more)), d.alignEnd && exact, w);
      }
    }
  }

  lemma FirstExact(l: TreeLiterals)
    requires l.rest == Nil
    ensures ExactEnds([l]) <==> ExactTail(l)
  {
    hide ExactTail;
    assert [l][0] == l;
  }

  lemma WeakerEnd(gs: seq<Text>, s: bool, e: bool, e': bool, w: Text)
    requires Hit(gs, s, e, w) && (e' ==> e)
    ensures Hit(gs, s, e', w)
  {
    var k :| 0 <= k < |gs| && HitBy(gs[k], s, e, w);
    assert HitBy(gs[k], s, e', w);
  }

  // ----- the scan

  /** No quantifier that changes what precedes the end of a match directly follows a grain that
      ends its branch. */
  ghost predicate EndReliable(a: Alts)
  {
    ExactEnds(EndLiterals(a))
  }

  ghost predicate SetHit(set_: GrainSet, reliable: bool, w: Text)
  {
    set_.grains != [] ==> Hit(set_.grains, set_.anchorStart, set_.anchorEnd && reliable, w)
  }

  lemma UpdateHit(cur: GrainSet, gs: seq<Text>, s: bool, e: bool, reliable: bool, w: Text)
    requires SetHit(cur, reliable, w) && Hit(gs, s, e && reliable, w)
    ensures SetHit(Update(cur, gs, s, e), reliable, w)
  {
  }

  lemma HitInside(gs: seq<Text>, s: bool, e: bool, u: Text, w: Text)
    requires Hit(gs, s, e, w)
    ensures Hit(gs, s && u == [], e, u + w)
  {
    var k :| 0 <= k < |gs| && HitBy(gs[k], s, e, w);
    var g, uw := gs[k], u + w;
    var i :| OccursAt(g, w, i);
    assert uw[|u| + i..|u| + i + |g|] == w[i..i + |g|];
    assert OccursAt(g, uw, |u| + i);
    if u == [] { assert uw == w; }
    if e { assert uw[|uw| - |g|..] == w[|w| - |g|..]; }
    assert HitBy(g, s && u == [], e, uw);
  }

  /** A group that must be matched at least once: the string it matches starts with one of its
      alternatives, and is one if there is no quantifier. */
  lemma GroupParts(lang: Lang, i: Item, w: Text) returns (x: Text, y: Text)
    requires i.atom.Group? && Mandatory(i.q) && InItem(lang, i, w)
    ensures w == x + y && InAlts(lang, i.atom.alts, x) && (i.q == Once ==> y == [])
  {
    hide CountOk, InAlts, InCount, InAtom, Mandatory;
    var n: nat :| CountOk(i.q, i.mode, n) && InCount(lang, i, n, w);
    x, y := FirstOfItem(lang, i, n, w);
    assert InAlts(lang, i.atom.alts, x) by { AtomOfGroup(lang, i.atom, x); }
  }

  lemma AtomOfGroup(lang: Lang, a: Atom, x: Text)
    requires a.Group? && InAtom(lang, a, x)
    ensures InAlts(lang, a.alts, x)
  {
    hide InAlts;
  }

  lemma AreBraces(q: Quant)
    ensures LiteralBraces(q) ==> q.Braces?
  {
  }

  lemma FirstOfItem(lang: Lang, i: Item, n: nat, w: Text) returns (x: Text, y: Text)
    requires Mandatory(i.q) && CountOk(i.q, i.mode, n) && InCount(lang, i, n, w)
    ensures w == x + y && InAtom(lang, i.atom, x) && (i.q == Once ==> y == [])
  {
    hide CountOk, InAtom, InPower, Mandatory, BraceText, LiteralBraces;
    if LiteralBraces(i.q) {
      AreBraces(i.q);
      var j :| 0 <= j <= |w| && InAtom(lang, i.atom, w[..j]) && w[j..] == BraceText(i.q.body, n);
      x, y := w[..j], w[j..];
    } else {
      MandatoryCounts(i.q, i.mode, n);
      x, y := FirstOfPower(lang, i.atom, n, w);
      if i.q == Once { OnceLeavesNothing(lang, i.atom, i.mode, n, y); }
    }
  }

  lemma FirstOfPower(lang: Lang, a: Atom, n: nat, w: Text) returns (x: Text, y: Text)
    requires n >= 1 && InPower(lang, a, n, w)
    ensures w == x + y && InAtom(lang, a, x) && InPower(lang, a, n - 1, y)
  {
    hide InAtom;
    var j :| 0 <= j <= |w| && InAtom(lang, a, w[..j]) && InPower(lang, a, n - 1, w[j..]);
    x, y := w[..j], w[j..];
  }

  lemma OnceLeavesNothing(lang: Lang, a: Atom, m: Mode, n: nat, y: Text)
    requires CountOk(Once, m, n) && n >= 1 && InPower(lang, a, n - 1, y)
    ensures y == []
  {
  }

  lemma HitBefore(gs: seq<Text>, s: bool, e: bool, w: Text, y: Text)
    requires Hit(gs, s, e, w)
    ensures Hit(gs, s, e && y == [], w + y)
  {
    var k :| 0 <= k < |gs| && HitBy(gs[k], s, e, w);
    var g, wy := gs[k], w + y;
    var i :| OccursAt(g, w, i);
    assert wy[i..i + |g|] == w[i..i + |g|];
    assert OccursAt(g, wy, i);
    if y == [] { assert wy == w; }
    assert HitBy(g, s, e && y == [], wy);
  }

  lemma {:induction false} ScanHit(lang: Lang, b: Branch, atStart: bool, cur: GrainSet, reliable: bool, u: Text, w: Text)
    requires InBranch(lang, b, w) && (atStart ==> u == [])
    requires reliable ==> ExactEnds(EndOfBranch(b))
    requires SetHit(cur, reliable, u + w)
    ensures SetHit(ScanBranch(b, atStart, cur).set_, reliable, u + w)
  {
    hide FindInAlts, WildAtom, ExactTail, SetHit, Update, InItem, AltLits, ExactEnds, EndOfBranch;
    if b.Cons? {
      if reliable { EndStep(b); }
      var l := LeadingLiterals(b);
      if GrainOf(l) != [] {
        LiteralsShrink(b);
        var image, u' := LiteralStepHit(lang, b, atStart, cur, reliable, u, w);
        assert u + w == (u + image) + u';
        ScanHit(lang, l.rest, false, Update(cur, [GrainOf(l)], atStart, l.rest == Nil), reliable, u + image, u');
      } else {
        var i, t := b.head, b.tail;
        var j :| 0 <= j <= |w| && InItem(lang, i, w[..j]) && InBranch(lang, t, w[j..]);
        var cur' := cur;
        if FindInGroup(i.atom).TreeComplete? && Mandatory(i.q) {
          cur' := GroupStep(lang, i, t, atStart, cur, reliable, u, w, j);
        }
        assert u + w == (u + w[..j]) + w[j..];
        ScanHit(lang, t, false, cur', reliable, u + w[..j], w[j..]);
      }
    }
  }

  /** The end of a branch is that of what follows its first literals or its first item. */
  lemma EndStep(b: Branch)
    requires b.Cons? && ExactEnds(EndOfBranch(b))
    ensures var l := LeadingLiterals(b);
            if GrainOf(l) != [] then (l.rest == Nil ==> ExactTail(l)) && ExactEnds(EndOfBranch(l.rest))
            else
              (b.tail == Nil && b.head.q == Once && b.head.atom.Group? ==> ExactEnds(AltLits(b.head.atom.alts))) &&
              ExactEnds(EndOfBranch(b.tail))
  {
    hide AltLits, ExactTail;
    var l := LeadingLiterals(b);
    if GrainOf(l) != [] && l.rest == Nil { FirstExact(l); }
  }

  lemma LiteralStepHit(lang: Lang, b: Branch, atStart: bool, cur: GrainSet, reliable: bool, u: Text, w: Text)
    returns (image: Text, u': Text)
    requires InBranch(lang, b, w) && GrainOf(LeadingLiterals(b)) != [] && (atStart ==> u == [])
    requires reliable && LeadingLiterals(b).rest == Nil ==> ExactTail(LeadingLiterals(b))
    requires SetHit(cur, reliable, u + w)
    ensures var l := LeadingLiterals(b);
            w == image + u' && InBranch(lang, l.rest, u') &&
            SetHit(Update(cur, [GrainOf(l)], atStart, l.rest == Nil), reliable, u + w)
  {
    hide GrainOf, LeadingLiterals, ExactTail, SetHit, Update, HitBy, Image;
    var n;
    var l := LeadingLiterals(b);
    n, u' := LiteralParts(lang, b, w);
    image := Image(l, n);
    var e := l.rest == Nil;
    GrainPrefix(l, n);
    if e && reliable { ExactTailEnds(l, n); }
    PartsHit(GrainOf(l), [], image, u', true, e && reliable);
    assert [] + (image + u') == w;
    var gs := [GrainOf(l)];
    assert HitBy(gs[0], true, e && reliable, w);
    HitInside(gs, true, e && reliable, u, w);
    WeakerStart(gs, u == [], atStart, e && reliable, u + w);
    UpdateHit(cur, gs, atStart, e, reliable, u + w);
  }

  lemma WeakerStart(gs: seq<Text>, s: bool, s': bool, e: bool, w: Text)
    requires Hit(gs, s, e, w) && (s' ==> s)
    ensures Hit(gs, s', e, w)
  {
    var k :| 0 <= k < |gs| && HitBy(gs[k], s, e, w);
    assert HitBy(gs[k], s', e, w);
  }

  lemma GroupStep(lang: Lang, i: Item, t: Branch, atStart: bool, cur: GrainSet, reliable: bool, u: Text, w: Text, j: nat)
    returns (cur': GrainSet)
    requires FindInGroup(i.atom).TreeComplete? && Mandatory(i.q)
    requires j <= |w| && InItem(lang, i, w[..j]) && InBranch(lang, t, w[j..])
    requires atStart ==> u == []
    requires reliable && i.q == Once && t == Nil ==> ExactEnds(AltLits(i.atom.alts))
    requires SetHit(cur, reliable, u + w)
    ensures var d := FindInGroup(i.atom);
            cur' == Update(cur, d.grains, atStart && d.alignStart, t == Nil && i.q == Once && d.alignEnd)
    ensures SetHit(cur', reliable, u + w)
  {
    hide FindInAlts, ExactEnds, AltLits, InItem, Update, SetHit, Hit, HitBy, Mandatory;
    var d := FindInGroup(i.atom);
    var x, y := GroupParts(lang, i, w[..j]);
    AltsHit(lang, i.atom.alts, x, [], true, true);
    var e := t == Nil && i.q == Once && d.alignEnd;
    WeakerEnd(d.grains, d.alignStart, d.alignEnd && ExactEnds(AltLits(i.atom.alts)), e && reliable, x);
    var z := y + w[j..];
    HitBefore(d.grains, d.alignStart, e && reliable, x, z);
    assert w == w[..j] + w[j..];
    assert x + z == w;
    WeakerEnd(d.grains, d.alignStart, e && reliable && z == [], e && reliable, w);
    HitInside(d.grains, d.alignStart, e && reliable, u, w);
    WeakerStart(d.grains, d.alignStart && u == [], atStart && d.alignStart, e && reliable, u + w);
    UpdateHit(cur, d.grains, atStart && d.alignStart, e, reliable, u + w);
    cur' := Update(cur, d.grains, atStart && d.alignStart, e);
  }

  /** Whatever the engine matches contains a stored grain where the anchors say. */
  lemma GrainSoundness(lang: Lang, a: Alts, w: Text)
    requires OkAlts(a) && Regular(a) && InAlts(lang, a, w) && Analyse(PAlts(a)).ok
    ensures var s := Analyse(PAlts(a)).set_;
            Hit(s.grains, s.anchorStart, s.anchorEnd && EndReliable(a), w)
  {
    hide FindInAlts, ExactEnds, AltLits, EndOfBranch, ScanBranch, InBranch, Hit, PAlts, OkAlts, Regular, Analyse;
    AnalyseText(a);
    var reliable := EndReliable(a);
    if Bare(a) {
      var d := FindInAlts(a, [], true, true);
      AltsHit(lang, a, w, [], true, true);
      UpdateHit(EmptySet, d.grains, d.alignStart, d.alignEnd, reliable, w);
    } else if a.Last? {
      assert [] + w == w;
      ScanHit(lang, a.b, true, EmptySet, reliable, [], w);
      StoredWhenOk(a.b, true, EmptySet);
    }
  }

  lemma {:induction false} StoredWhenOk(b: Branch, atStart: bool, cur: GrainSet)
    ensures ScanBranch(b, atStart, cur).ok ==> ScanBranch(b, atStart, cur).set_.grains != []
  {
    hide FindInAlts, WildAtom, Update;
    if b.Cons? {
      var l := LeadingLiterals(b);
      if GrainOf(l) != [] {
        LiteralsShrink(b);
        StoredWhenOk(l.rest, false, Update(cur, [GrainOf(l)], atStart, l.rest == Nil));
      } else {
        match FindInGroup(b.head.atom)
        case TreeComplete(gs, s, e) =>
          StoredWhenOk(b.tail, false,
            if Mandatory(b.head.q) then Update(cur, gs, atStart && s, b.tail == Nil && b.head.q == Once && e) else cur);
        case TreeFailed => StoredWhenOk(b.tail, false, cur);
      }
    }
  }
}
