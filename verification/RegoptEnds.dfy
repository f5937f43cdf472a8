/** The end of a regex, as the optimiser sees it: the literals that grains anchored at the end were
    read from, and how the strings of the language end. */
module RegoptEnds {
  import opened RegexSyntax
  import opened RegoptReaders
  import opened RegoptParse
  import opened RegoptTree
  import opened RegoptSound

  // ----- what is stored with an end anchor

  function GrainsOf(ls: seq<TreeLiterals>): seq<Text>
  {
    seq(|ls|, k requires 0 <= k < |ls| => GrainOf(ls[k]))
  }

  /** Every alternative has a grain that nothing follows. */
  predicate AltsEnd(a: Alts)
  {
    var b := match a case Last(b) => b case Or(b, _) => b;
    FindInBranch(b).TreeFound? && FindInBranch(b).literals.rest == Nil &&
    match a case Last(_) => true case Or(_, more) => AltsEnd(more)
  }

  /** The branch ends with a grain that nothing follows, or with a group of such. */
  predicate BranchEnds(b: Branch)
  {
    match b
    case Nil => false
    case Cons(i, t) =>
      var l := LeadingLiterals(b);
      if GrainOf(l) != [] then
        LiteralsShrink(b);
        l.rest == Nil || BranchEnds(l.rest)
      else if t != Nil then BranchEnds(t)
      else i.q == Once && i.atom.Group? && AltsEnd(i.atom.alts)
  }

  predicate Ends(a: Alts)
  {
    if Bare(a) then AltsEnd(a) else a.Last? && BranchEnds(a.b)
  }

  lemma {:induction false} AltsGrains(a: Alts, gs: seq<Text>, s: bool, e: bool)
    ensures var d := FindInAlts(a, gs, s, e);
            d.TreeComplete? ==> d.grains == gs + GrainsOf(AltLits(a)) && (d.alignEnd ==> AltsEnd(a))
  {
    hide FindInBranch, GrainOf, WildBranch;
    var b := match a case Last(b) => b case Or(b, _) => b;
    var f := FindInBranch(b);
    if f.TreeFound? {
      var gs', s', e' := gs + [GrainOf(f.literals)], s && !f.skipped, e && f.literals.rest == Nil;
      assert GrainsOf(LitsOf(b)) == [GrainOf(f.literals)];
      if a.Or? {
        AltsGrains(a.more, gs', s', e');
        AltsOnlyWeaken(a.more, gs', s', e');
        assert GrainsOf(LitsOf(b) + AltLits(a.more)) == GrainsOf(LitsOf(b)) + GrainsOf(AltLits(a.more));
        assert gs' + GrainsOf(AltLits(a.more)) == gs + (GrainsOf(LitsOf(b)) + GrainsOf(AltLits(a.more)));
      }
    }
  }

  /** If the scan of a branch stores an end anchor, the grains are those of its end literals. */
  lemma {:induction false} ScanStoresEnd(b: Branch, atStart: bool, cur: GrainSet)
    requires !cur.anchorEnd
    ensures var s := ScanBranch(b, atStart, cur).set_;
            s.anchorEnd ==> BranchEnds(b) && s.grains == GrainsOf(EndOfBranch(b))
  {
    hide WildAtom, FindInAlts, AltLits, AltsEnd;
    if b.Cons? {
      var l := LeadingLiterals(b);
      if GrainOf(l) != [] {
        LiteralsShrink(b);
        ScanStoresEnd(l.rest, false, Update(cur, [GrainOf(l)], atStart, false));
        assert GrainsOf([l]) == [GrainOf(l)];
      } else if b.tail != Nil {
        match FindInGroup(b.head.atom)
        case TreeComplete(gs, s, e) =>
          ScanStoresEnd(b.tail, false, if Mandatory(b.head.q) then Update(cur, gs, atStart && s, false) else cur);
        case TreeFailed => ScanStoresEnd(b.tail, false, cur);
      } else if b.head.atom.Group? {
        AltsGrains(b.head.atom.alts, [], true, true);
        assert [] + GrainsOf(AltLits(b.head.atom.alts)) == GrainsOf(AltLits(b.head.atom.alts));
      }
    }
  }

  lemma StoredEnd(a: Alts)
    requires AnalyseTree(a).ok && AnalyseTree(a).set_.anchorEnd
    ensures Ends(a) && AnalyseTree(a).set_.grains == GrainsOf(EndLiterals(a))
  {
    hide FindInAlts, ScanBranch, AltsEnd, BranchEnds, EndOfBranch, AltLits, GrainsOf;
    AltsGrains(a, [], true, true);
    assert [] + GrainsOf(AltLits(a)) == GrainsOf(AltLits(a));
    if a.Last? { ScanStoresEnd(a.b, true, EmptySet); }
  }

  lemma {:induction false} AltsEndFreely(a: Alts, k: nat)
    requires AltsEnd(a) && k < |AltLits(a)|
    ensures AltLits(a)[k].rest == Nil
  {
    hide FindInBranch;
    if a.Or? && k > 0 {
      assert AltLits(a)[k] == AltLits(a.more)[k - 1];
      AltsEndFreely(a.more, k - 1);
    }
  }

  lemma {:induction false} BranchEndsFreely(b: Branch, k: nat)
    requires BranchEnds(b) && k < |EndOfBranch(b)|
    ensures EndOfBranch(b)[k].rest == Nil
  {
    hide AltsEnd, AltLits;
    var l := LeadingLiterals(b);
    if GrainOf(l) != [] {
      LiteralsShrink(b);
      if l.rest != Nil { BranchEndsFreely(l.rest, k); }
    } else if b.tail != Nil {
      BranchEndsFreely(b.tail, k);
    } else {
      AltsEndFreely(b.head.atom.alts, k);
    }
  }

  lemma EndsFreely(a: Alts)
    requires Ends(a)
    ensures forall k :: 0 <= k < |EndLiterals(a)| ==> EndLiterals(a)[k].rest == Nil
  {
    forall k | 0 <= k < |EndLiterals(a)| ensures EndLiterals(a)[k].rest == Nil {
      if Bare(a) { AltsEndFreely(a, k); } else { BranchEndsFreely(a.b, k); }
    }
  }

  // ----- how the strings of the language end

  lemma {:induction false} AltsParts(lang: Lang, a: Alts, w: Text) returns (k: nat, n: nat, v: Text)
    requires InAlts(lang, a, w) && AltsEnd(a)
    ensures k < |AltLits(a)|
    ensures var l := AltLits(a)[k]; CountOk(l.q, l.mode, n) && w == v + Image(l, n)
  {
    hide FindInBranch, CountOk, Image, InBranch;
    var b := match a case Last(b) => b case Or(b, _) => b;
    var l := FindInBranch(b).literals;
    if InBranch(lang, b, w) {
      var u;
      v, n, u := FoundParts(lang, b, w);
      NothingBehind(lang, u);
      assert Image(l, n) + u == Image(l, n);
      k := 0;
    } else {
      k, n, v := AltsParts(lang, a.more, w);
      assert AltLits(a)[k + 1] == AltLits(a.more)[k];
      k := k + 1;
    }
  }

  lemma NothingBehind(lang: Lang, u: Text)
    requires InBranch(lang, Nil, u)
    ensures u == []
  {
  }

  lemma {:induction false} BranchParts(lang: Lang, b: Branch, w: Text) returns (k: nat, n: nat, v: Text)
    requires InBranch(lang, b, w) && BranchEnds(b)
    ensures k < |EndOfBranch(b)|
    ensures var l := EndOfBranch(b)[k]; CountOk(l.q, l.mode, n) && w == v + Image(l, n)
  {
    hide CountOk, Image, InItem, AltLits, AltsEnd;
    var l := LeadingLiterals(b);
    if GrainOf(l) != [] {
      LiteralsShrink(b);
      var m, u := LiteralParts(lang, b, w);
      if l.rest == Nil {
        NothingBehind(lang, u);
        k, n, v := 0, m, [];
        assert [] + Image(l, m) == Image(l, m) + [];
      } else {
        k, n, v := BranchParts(lang, l.rest, u);
        v := Image(l, m) + v;
        assert w == v + Image(EndOfBranch(b)[k], n);
      }
    } else {
      var i, t := b.head, b.tail;
      var j :| 0 <= j <= |w| && InItem(lang, i, w[..j]) && InBranch(lang, t, w[j..]);
      assert w == w[..j] + w[j..];
      if t != Nil {
        k, n, v := BranchParts(lang, t, w[j..]);
        v := w[..j] + v;
        assert w == v + Image(EndOfBranch(b)[k], n);
      } else {
        var x, y := GroupParts(lang, i, w[..j]);
        NothingBehind(lang, w[j..]);
        k, n, v := AltsParts(lang, i.atom.alts, x);
        assert w == x;
      }
    }
  }

  /** Every string of the language ends with an image of one of the end literals. */
  lemma EndParts(lang: Lang, a: Alts, w: Text) returns (k: nat, n: nat, v: Text)
    requires InAlts(lang, a, w) && Ends(a)
    ensures k < |EndLiterals(a)|
    ensures var l := EndLiterals(a)[k]; CountOk(l.q, l.mode, n) && w == v + Image(l, n)
  {
    hide CountOk, Image, AltsEnd, BranchEnds, FindInAlts;
    if Bare(a) {
      k, n, v := AltsParts(lang, a, w);
    } else {
      k, n, v := BranchParts(lang, a.b, w);
    }
  }

  // ----- every image of an end literal occurs

  lemma {:induction false} LiteralsBuild(lang: Lang, b: Branch, n: nat, u: Text)
    requires var l := LeadingLiterals(b); CountOk(l.q, l.mode, n) && InBranch(lang, l.rest, u)
    ensures InBranch(lang, b, Image(LeadingLiterals(b), n) + u)
  {
    hide CountOk, Image, InCount, Symbols;
    var l := LeadingLiterals(b);
    if l.text == [] {
      EmptyImage(l, n, u);
    } else {
      var i, t := b.head, b.tail;
      var m := LeadingLiterals(t);
      if i.q == Once {
        LiteralsBuild(lang, t, n, u);
        var x := Symbols(i.atom.c, Once, 1);
        CountOfLiteral(lang, i, 1, x);
        OnceCount(i.mode);
        OnceThen(l, m, i.atom.c, n, x, u);
        OnceIsOne(m.q, m.mode, n);
        Joined(lang, i, t, x, Image(m, n) + u, 1);
      } else {
        var x := Symbols(i.atom.c, i.q, n);
        CountOfLiteral(lang, i, n, x);
        OneRepeated(l, i.atom.c, n);
        Joined(lang, i, t, x, u, n);
      }
    }
  }

  lemma EmptyImage(l: TreeLiterals, n: nat, u: Text)
    requires l.text == []
    ensures Image(l, n) + u == u
  {
  }

  lemma OnceCount(m: Mode)
    ensures CountOk(Once, m, 1)
  {
  }

  lemma Joined(lang: Lang, i: Item, t: Branch, x: Text, y: Text, n: nat)
    requires CountOk(i.q, i.mode, n) && InCount(lang, i, n, x) && InBranch(lang, t, y)
    ensures InBranch(lang, Cons(i, t), x + y)
  {
    hide CountOk, InCount;
    assert InItem(lang, i, x);
    hide InItem;
    JoinedItem(lang, i, t, x, y);
  }

  lemma JoinedItem(lang: Lang, i: Item, t: Branch, x: Text, y: Text)
    requires InItem(lang, i, x) && InBranch(lang, t, y)
    ensures InBranch(lang, Cons(i, t), x + y)
  {
    hide InItem;
    var w := x + y;
    assert w[..|x|] == x && w[|x|..] == y;
  }

  /** A branch with a grain at its end has a string that ends with any given image. */
  lemma {:induction false} FoundBuild(lang: Lang, b: Branch, w: Text, n: nat) returns (v: Text)
    requires InBranch(lang, b, w) && FindInBranch(b).TreeFound? && FindInBranch(b).literals.rest == Nil
    requires var l := FindInBranch(b).literals; CountOk(l.q, l.mode, n)
    ensures InBranch(lang, b, v + Image(FindInBranch(b).literals, n))
  {
    hide InItem, CountOk, Image;
    var l := LeadingLiterals(b);
    if GrainOf(l) != [] {
      LiteralsBuild(lang, b, n, []);
      v := [];
      assert [] + Image(l, n) == Image(l, n) + [];
    } else {
      var j :| 0 <= j <= |w| && InItem(lang, b.head, w[..j]) && InBranch(lang, b.tail, w[j..]);
      v := FoundBuild(lang, b.tail, w[j..], n);
      var x := Image(FindInBranch(b).literals, n);
      JoinedItem(lang, b.head, b.tail, w[..j], v + x);
      assert w[..j] + (v + x) == w[..j] + v + x;
      v := w[..j] + v;
    }
  }

  /** Every alternative matches something. */
  ghost predicate Inhabited(lang: Lang, a: Alts)
  {
    var b := match a case Last(b) => b case Or(b, _) => b;
    (exists w :: InBranch(lang, b, w)) && match a case Last(_) => true case Or(_, more) => Inhabited(lang, more)
  }

  lemma {:induction false} AltsBuild(lang: Lang, a: Alts, k: nat, n: nat) returns (v: Text)
    requires AltsEnd(a) && Inhabited(lang, a) && k < |AltLits(a)|
    requires var l := AltLits(a)[k]; CountOk(l.q, l.mode, n)
    ensures InAlts(lang, a, v + Image(AltLits(a)[k], n))
  {
    hide FindInBranch, CountOk, Image, InBranch;
    var b := match a case Last(b) => b case Or(b, _) => b;
    if k == 0 {
      var w :| InBranch(lang, b, w);
      v := FoundBuild(lang, b, w, n);
    } else {
      assert AltLits(a)[k] == AltLits(a.more)[k - 1];
      v := AltsBuild(lang, a.more, k - 1, n);
    }
  }

  /** Every alternative of a group at the end of a branch matches something. */
  ghost predicate EndInhabited(lang: Lang, b: Branch)
  {
    match b
    case Nil => true
    case Cons(i, t) =>
      var l := LeadingLiterals(b);
      if GrainOf(l) != [] then
        LiteralsShrink(b);
        EndInhabited(lang, l.rest)
      else if t != Nil then EndInhabited(lang, t)
      else i.q == Once && i.atom.Group? ==> Inhabited(lang, i.atom.alts)
  }

  lemma {:induction false} BranchBuild(lang: Lang, b: Branch, w: Text, k: nat, n: nat) returns (v: Text)
    requires InBranch(lang, b, w) && BranchEnds(b) && EndInhabited(lang, b) && k < |EndOfBranch(b)|
    requires var l := EndOfBranch(b)[k]; CountOk(l.q, l.mode, n)
    ensures InBranch(lang, b, v + Image(EndOfBranch(b)[k], n))
  {
    hide InItem, CountOk, Image, AltLits, AltsEnd, Inhabited;
    var l, x := LeadingLiterals(b), Image(EndOfBranch(b)[k], n);
    if GrainOf(l) != [] {
      LiteralsShrink(b);
      if l.rest == Nil {
        LiteralsBuild(lang, b, n, []);
        v := [];
        assert [] + x == x + [];
      } else {
        var m, u := LiteralParts(lang, b, w);
        v := BranchBuild(lang, l.rest, u, k, n);
        LiteralsBuild(lang, b, m, v + x);
        assert Image(l, m) + (v + x) == Image(l, m) + v + x;
        v := Image(l, m) + v;
      }
    } else {
      var i, t := b.head, b.tail;
      var j :| 0 <= j <= |w| && InItem(lang, i, w[..j]) && InBranch(lang, t, w[j..]);
      if t != Nil {
        v := BranchBuild(lang, t, w[j..], k, n);
        JoinedItem(lang, i, t, w[..j], v + x);
        assert w[..j] + (v + x) == w[..j] + v + x;
        v := w[..j] + v;
      } else {
        v := AltsBuild(lang, i.atom.alts, k, n);
        GroupAlone(lang, i, v + x);
      }
    }
  }

  lemma GroupAlone(lang: Lang, i: Item, x: Text)
    requires i.q == Once && i.atom.Group? && InAlts(lang, i.atom.alts, x)
    ensures InBranch(lang, Cons(i, Nil), x)
  {
    hide InAlts;
    assert InAtom(lang, i.atom, x);
    assert x[..|x|] == x && x[|x|..] == [];
    assert InPower(lang, i.atom, 0, []);
    assert InPower(lang, i.atom, 1, x);
    Joined(lang, i, Nil, x, [], 1);
    assert x + [] == x;
  }

  /** Everything that the end of the regex can match is part of some match. */
  ghost predicate Populated(lang: Lang, a: Alts)
  {
    if Bare(a) then Inhabited(lang, a)
    else a.Last? ==> (exists w :: InBranch(lang, a.b, w)) && EndInhabited(lang, a.b)
  }

  lemma EndBuild(lang: Lang, a: Alts, k: nat, n: nat) returns (v: Text)
    requires Ends(a) && Populated(lang, a) && k < |EndLiterals(a)|
    requires var l := EndLiterals(a)[k]; CountOk(l.q, l.mode, n)
    ensures InAlts(lang, a, v + Image(EndLiterals(a)[k], n))
  {
    hide CountOk, Image, AltsEnd, BranchEnds, FindInAlts, InBranch, Inhabited, EndInhabited;
    if Bare(a) {
      v := AltsBuild(lang, a, k, n);
    } else {
      var w :| InBranch(lang, a.b, w);
      v := BranchBuild(lang, a.b, w, k, n);
    }
  }
}
