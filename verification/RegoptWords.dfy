/** What cl_regopt_analyse (cl/regopt.c) stores for the regular expressions it was made for: lists of
    words, each with wildcards before and behind it. */
module RegoptWords {
  import opened RegexSyntax
  import opened RegoptReaders
  import opened RegoptParse
  import opened RegoptTree

  /** One alternative: a word between wildcards.  What follows it may contain further words, since
      read_wildcard reads plain literals too. */
  datatype Listed = Listed(before: seq<Item>, word: Text, after: seq<Item>)

  function Literal(c: Char): Item
  {
    Item(if SafeChar(c) then Lit(c) else EscLit(c), Once, Greedy)
  }

  function WithWord(w: Text, t: Branch): Branch
  {
    if w == [] then t else Cons(Literal(w[0]), WithWord(w[1..], t))
  }

  function WithItems(s: seq<Item>, t: Branch): Branch
  {
    if s == [] then t else Cons(s[0], WithItems(s[1..], t))
  }

  function BranchOf(x: Listed): Branch
  {
    WithItems(x.before, WithWord(x.word, WithItems(x.after, Nil)))
  }

  function AltsOf(xs: seq<Listed>): Alts
    requires xs != []
  {
    if |xs| == 1 then Last(BranchOf(xs[0])) else Or(BranchOf(xs[0]), AltsOf(xs[1..]))
  }

  function Words(xs: seq<Listed>): (ws: seq<Text>)
    ensures |ws| == |xs| && forall k :: 0 <= k < |xs| ==> ws[k] == xs[k].word
  {
    seq(|xs|, k requires 0 <= k < |xs| => xs[k].word)
  }

  /** `.`, an escape sequence or a set that the optimiser can read, with any quantifier. */
  predicate Wildcard(i: Item)
  {
    i.atom.Any? && OkItem(i) && RegularAtom(i.atom) && WildAtom(i.atom)
  }

  /** An item that the optimiser skips behind a word: a wildcard, a plain literal, or a group of such. */
  predicate Skipped(i: Item)
  {
    OkItem(i) && RegularAtom(i.atom) && WildAtom(i.atom)
  }

  predicate OkListed(x: Listed)
  {
    x.word != [] && (forall k :: 0 <= k < |x.word| ==> SafeChar(x.word[k]) || AsciiPunct(x.word[k])) &&
    (forall k :: 0 <= k < |x.before| ==> Wildcard(x.before[k])) &&
    (forall k :: 0 <= k < |x.after| ==> Skipped(x.after[k])) && (x.after != [] ==> !x.after[0].atom.Lit?)
  }

  lemma {:induction false} ItemsOk(s: seq<Item>, t: Branch)
    requires OkBranch(t) && RegularBranch(t) && forall k :: 0 <= k < |s| ==> Skipped(s[k])
    ensures OkBranch(WithItems(s, t)) && RegularBranch(WithItems(s, t))
    ensures WildBranch(t) ==> WildBranch(WithItems(s, t))
    ensures WithItems(s, t) == Nil <==> s == [] && t == Nil
  {
    hide OkItem, WildAtom, RegularAtom;
    if s != [] {
      assert Skipped(s[0]);
      ItemsOk(s[1..], t);
    }
  }

  lemma {:induction false} WordOk(w: Text, t: Branch)
    requires OkBranch(t) && RegularBranch(t)
    requires forall k :: 0 <= k < |w| ==> SafeChar(w[k]) || AsciiPunct(w[k])
    ensures OkBranch(WithWord(w, t)) && RegularBranch(WithWord(w, t))
  {
    hide SafeChar, AsciiPunct, OkItem, RegularAtom;
    if w != [] {
      assert SafeChar(w[0]) || AsciiPunct(w[0]);
      LiteralOk(w[0]);
      WordOk(w[1..], t);
    }
  }

  lemma LiteralOk(c: Char)
    requires SafeChar(c) || AsciiPunct(c)
    ensures OkItem(Literal(c)) && RegularAtom(Literal(c).atom)
  {
    hide SafeChar, AsciiPunct;
  }

  lemma {:induction false} WordIsFound(w: Text, after: seq<Item>)
    requires (forall k :: 0 <= k < |after| ==> Skipped(after[k])) && (after != [] ==> !after[0].atom.Lit?)
    ensures LeadingLiterals(WithWord(w, WithItems(after, Nil))) == TreeLiterals(w, Once, Greedy, WithItems(after, Nil))
  {
    hide SafeChar, OkItem, RegularAtom;
    if w == [] {
      if after != [] { assert Skipped(after[0]) && !after[0].atom.EscLit?; }
    } else {
      WordIsFound(w[1..], after);
      assert w == [w[0]] + w[1..];
    }
  }

  lemma {:induction false} FindWord(x: Listed)
    requires OkListed(x)
    ensures FindInBranch(BranchOf(x)) == TreeFound(x.before != [], TreeLiterals(x.word, Once, Greedy, WithItems(x.after, Nil)))
    decreases |x.before|
  {
    hide SafeChar, AsciiPunct, OkItem, RegularAtom;
    if x.before == [] {
      WordIsFound(x.word, x.after);
    } else {
      var y := Listed(x.before[1..], x.word, x.after);
      FindWord(y);
      assert Wildcard(x.before[0]);
      assert BranchOf(x) == Cons(x.before[0], BranchOf(y));
    }
  }

  lemma ListedOk(x: Listed)
    requires OkListed(x)
    ensures OkBranch(BranchOf(x)) && RegularBranch(BranchOf(x)) && WildBranch(WithItems(x.after, Nil))
    ensures WithItems(x.after, Nil) == Nil <==> x.after == []
  {
    hide OkItem, RegularAtom, WildAtom, SafeChar, AsciiPunct;
    ItemsOk(x.after, Nil);
    WordOk(x.word, WithItems(x.after, Nil));
    ItemsOk(x.before, WithWord(x.word, WithItems(x.after, Nil)));
  }

  predicate NothingBefore(xs: seq<Listed>)
  {
    forall k :: 0 <= k < |xs| ==> xs[k].before == []
  }

  predicate NothingBehind(xs: seq<Listed>)
  {
    forall k :: 0 <= k < |xs| ==> xs[k].after == []
  }

  lemma FirstOfList(xs: seq<Listed>, gs: seq<Text>)
    requires |xs| > 1
    ensures NothingBefore(xs) <==> xs[0].before == [] && NothingBefore(xs[1..])
    ensures NothingBehind(xs) <==> xs[0].after == [] && NothingBehind(xs[1..])
    ensures gs + [xs[0].word] + Words(xs[1..]) == gs + Words(xs)
  {
    assert xs == [xs[0]] + xs[1..];
  }

  /** One alternative of the list. */
  lemma FindOne(x: Listed, a: Alts, gs: seq<Text>, s: bool, e: bool)
    requires OkListed(x) && (a == Last(BranchOf(x)) || (a.Or? && a.b == BranchOf(x)))
    ensures FindInAlts(a, gs, s, e) ==
            if |gs| + 1 >= 12 then TreeFailed
            else match a case Last(_) => TreeComplete(gs + [x.word], s && x.before == [], e && x.after == [])
                         case Or(_, more) => FindInAlts(more, gs + [x.word], s && x.before == [], e && x.after == [])
  {
    hide FindInBranch, WildBranch, OkListed, BranchOf, WithItems;
    FindWord(x);
    ListedOk(x);
    OnceIsMandatory();
  }

  lemma {:induction false} FindWords(xs: seq<Listed>, gs: seq<Text>, s: bool, e: bool)
    requires xs != [] && forall k :: 0 <= k < |xs| ==> OkListed(xs[k])
    ensures OkAlts(AltsOf(xs)) && Regular(AltsOf(xs))
    ensures FindInAlts(AltsOf(xs), gs, s, e) ==
            if |gs| + |xs| >= 12 then TreeFailed
            else TreeComplete(gs + Words(xs), s && NothingBefore(xs), e && NothingBehind(xs))
  {
    hide OkListed, FindInAlts, OkBranch, RegularBranch, BranchOf, NothingBefore, NothingBehind;
    var x := xs[0];
    FindOne(x, AltsOf(xs), gs, s, e);
    ListedOk(x);
    if |xs| > 1 {
      FindWords(xs[1..], gs + [x.word], s && x.before == [], e && x.after == []);
      FirstOfList(xs, gs);
    } else {
      assert xs == [x];
      assert Words(xs) == [x.word];
      OneOnly(x);
    }
  }

  lemma OneOnly(x: Listed)
    ensures NothingBefore([x]) <==> x.before == []
    ensures NothingBehind([x]) <==> x.after == []
  {
    assert [x][0] == x;
  }

  /** A list of words is accepted exactly if it has at most 11 words, none of them of a single
      character.  Then the optimiser stores exactly the words, in their order, anchored at the start if
      nothing precedes any of them, and at the end if nothing follows. */
  lemma WordsAreStored(xs: seq<Listed>)
    requires xs != [] && forall k :: 0 <= k < |xs| ==> OkListed(xs[k])
    ensures OkAlts(AltsOf(xs)) && Regular(AltsOf(xs))
    ensures var o := Analyse(PAlts(AltsOf(xs)));
            (o.ok <==> |xs| <= 11 && forall k :: 0 <= k < |xs| ==> |xs[k].word| >= 2) &&
            (o.ok ==> o.set_ == GrainSet(Words(xs), Shortest(Words(xs)), forall k :: 0 <= k < |xs| ==> xs[k].before == [],
                                         forall k :: 0 <= k < |xs| ==> xs[k].after == []))
  {
    hide OkListed, FindInAlts, OkAlts, Regular, Analyse, BranchOf, Shortest, ScanBranch, PAlts;
    FindWords(xs, [], true, true);
    AnalyseText(AltsOf(xs));
    NoGroupFirst(xs[0]);
    assert !StartsWithGroup(AltsOf(xs));
    ShortestWord(xs);
    assert [] + Words(xs) == Words(xs);
    hide AltsOf;
    if |xs| <= 11 {
      FirstSet(AltsOf(xs), Words(xs), NothingBefore(xs), NothingBehind(xs));
    } else {
      assert AltsOf(xs).Or? by { LongList(xs); }
    }
  }

  lemma LongList(xs: seq<Listed>)
    requires |xs| > 1
    ensures AltsOf(xs).Or?
  {
  }

  lemma FirstSet(a: Alts, ws: seq<Text>, s: bool, e: bool)
    requires ws != [] && !StartsWithGroup(a)
    requires FindInAlts(a, [], true, true) == TreeComplete(ws, s, e)
    ensures AnalyseTree(a) == if Shortest(ws) >= 2 then Outcome(true, GrainSet(ws, Shortest(ws), s, e)) else Outcome(false, EmptySet)
  {
    hide FindInAlts, Shortest;
  }

  lemma NoGroupFirst(x: Listed)
    requires OkListed(x)
    ensures BranchOf(x).Cons? && !BranchOf(x).head.atom.Group?
  {
    hide OkItem, RegularAtom, WildAtom, SafeChar, AsciiPunct;
    if x.before != [] { assert Wildcard(x.before[0]); }
  }

  lemma ShortestWord(xs: seq<Listed>)
    requires xs != []
    ensures Shortest(Words(xs)) >= 2 <==> forall k :: 0 <= k < |xs| ==> |xs[k].word| >= 2
  {
    var ws := Words(xs);
    var n := Shortest(ws);
    var g :| g in ws && n == |g|;
    var k :| 0 <= k < |ws| && ws[k] == g;
    assert n == |xs[k].word|;
    forall k | 0 <= k < |xs| ensures |xs[k].word| >= n { assert ws[k] in ws; }
  }

  // ----- a group of words

  /** `before(w1|...|wn)after`, with any quantifier behind the group. */
  function GroupBranch(before: seq<Item>, group: Item, after: seq<Item>): Branch
  {
    WithItems(before, Cons(group, WithItems(after, Nil)))
  }

  predicate OkGroup(before: seq<Item>, xs: seq<Listed>, cap: bool, q: Quant, mode: Mode, after: seq<Item>)
  {
    xs != [] && |xs| <= 11 && (forall k :: 0 <= k < |xs| ==> OkListed(xs[k]) && |xs[k].word| >= 2) && OkQuant(q, mode) &&
    (forall k :: 0 <= k < |before| ==> Wildcard(before[k])) && forall k :: 0 <= k < |after| ==> Wildcard(after[k])
  }

  lemma {:induction false} NothingFound(before: seq<Item>, t: Branch)
    requires FindInBranch(t) == TreeMissing && forall k :: 0 <= k < |before| ==> Wildcard(before[k])
    ensures FindInBranch(WithItems(before, t)) == TreeMissing
  {
    hide OkItem, RegularAtom;
    if before != [] {
      assert Wildcard(before[0]);
      NothingFound(before[1..], t);
    }
  }

  lemma NoGrainInGroup(group: Item, after: seq<Item>)
    requires group.atom.Group? && forall k :: 0 <= k < |after| ==> Wildcard(after[k])
    ensures FindInBranch(Cons(group, WithItems(after, Nil))) == TreeMissing
  {
    NothingFound(after, Nil);
  }

  lemma {:induction false} ScanSkips(before: seq<Item>, t: Branch, atStart: bool, cur: GrainSet)
    requires forall k :: 0 <= k < |before| ==> Wildcard(before[k])
    ensures ScanBranch(WithItems(before, t), atStart, cur) == ScanBranch(t, atStart && before == [], cur)
  {
    hide OkItem, RegularAtom;
    if before != [] {
      assert Wildcard(before[0]);
      ScanSkips(before[1..], t, false, cur);
    }
  }

  /** A mandatory group of words: the words are stored, anchored at the start if nothing precedes the
      group and the words in it, at the end if nothing follows, not even a quantifier.  If the group is
      optional, nothing is stored. */
  lemma GroupIsStored(before: seq<Item>, xs: seq<Listed>, cap: bool, q: Quant, mode: Mode, after: seq<Item>)
    requires OkGroup(before, xs, cap, q, mode, after)
    ensures var a := Last(GroupBranch(before, Item(Group(cap, AltsOf(xs)), q, mode), after));
            OkAlts(a) && Regular(a) && Analyse(PAlts(a)).ok == Mandatory(q) &&
            (Mandatory(q) ==>
               Analyse(PAlts(a)).set_ ==
               GrainSet(Words(xs), Shortest(Words(xs)), before == [] && forall k :: 0 <= k < |xs| ==> xs[k].before == [],
                        after == [] && q == Once && forall k :: 0 <= k < |xs| ==> xs[k].after == []))
  {
    hide OkListed, OkAlts, Regular, Analyse, AnalyseTree, GroupBranch, Shortest, Mandatory, Wildcard;
    GroupOk(before, xs, cap, q, mode, after);
    var a := Last(GroupBranch(before, Item(Group(cap, AltsOf(xs)), q, mode), after));
    AnalyseText(a);
    GroupTree(before, xs, cap, q, mode, after);
    NothingMeans(xs);
  }

  lemma NothingMeans(xs: seq<Listed>)
    ensures NothingBefore(xs) <==> forall k :: 0 <= k < |xs| ==> xs[k].before == []
    ensures NothingBehind(xs) <==> forall k :: 0 <= k < |xs| ==> xs[k].after == []
  {
  }

  lemma GroupTree(before: seq<Item>, xs: seq<Listed>, cap: bool, q: Quant, mode: Mode, after: seq<Item>)
    requires OkGroup(before, xs, cap, q, mode, after)
    ensures var o := AnalyseTree(Last(GroupBranch(before, Item(Group(cap, AltsOf(xs)), q, mode), after)));
            o.ok == Mandatory(q) &&
            (Mandatory(q) ==>
               o.set_ == GrainSet(Words(xs), Shortest(Words(xs)), before == [] && NothingBefore(xs),
                                  after == [] && q == Once && NothingBehind(xs)))
  {
    hide OkListed, FindInAlts, Wildcard, BranchOf, Shortest, Mandatory, AltsOf, ScanBranch, NothingBefore, NothingBehind, AnalyseTree,
         OkQuant, FindInGroup, FindInBranch;
    var group := Item(Group(cap, AltsOf(xs)), q, mode);
    GroupFound(xs, cap);
    NoGrainInGroup(group, after);
    NothingFound(before, Cons(group, WithItems(after, Nil)));
    FallsThrough(GroupBranch(before, group, after));
    ScanSkips(before, Cons(group, WithItems(after, Nil)), true, EmptySet);
    var set_ := if Mandatory(q) then GrainSet(Words(xs), Shortest(Words(xs)), before == [] && NothingBefore(xs),
                                              after == [] && q == Once && NothingBehind(xs)) else EmptySet;
    ScanOneGroup(group, after, before == [], Words(xs), NothingBefore(xs), NothingBehind(xs), set_);
  }

  lemma GroupFound(xs: seq<Listed>, cap: bool)
    requires xs != [] && |xs| <= 11 && forall k :: 0 <= k < |xs| ==> OkListed(xs[k]) && |xs[k].word| >= 2
    ensures FindInGroup(Group(cap, AltsOf(xs))) == TreeComplete(Words(xs), NothingBefore(xs), NothingBehind(xs))
    ensures Shortest(Words(xs)) >= 2
  {
    hide OkListed, FindInAlts, BranchOf, Shortest, AltsOf, NothingBefore, NothingBehind;
    FindWords(xs, [], true, true);
    ShortestWord(xs);
    assert [] + Words(xs) == Words(xs);
  }

  /** Without a grain at its front a branch is left to the main loop. */
  lemma FallsThrough(b: Branch)
    requires FindInBranch(b) == TreeMissing
    ensures AnalyseTree(Last(b)) == ScanBranch(b, true, EmptySet)
  {
    hide FindInBranch, ScanBranch;
    FirstBranchMissing(Last(b));
  }

  lemma ScanOneGroup(group: Item, after: seq<Item>, atStart: bool, ws: seq<Text>, s: bool, e: bool, set_: GrainSet)
    requires group.atom.Group? && FindInGroup(group.atom) == TreeComplete(ws, s, e) && ws != [] && Shortest(ws) >= 2
    requires forall k :: 0 <= k < |after| ==> Wildcard(after[k])
    requires set_ == if Mandatory(group.q) then GrainSet(ws, Shortest(ws), atStart && s, after == [] && group.q == Once && e) else EmptySet
    ensures ScanBranch(Cons(group, WithItems(after, Nil)), atStart, EmptySet) == Outcome(Mandatory(group.q), set_)
  {
    hide FindInAlts, Shortest, Mandatory;
    ScanSkips(after, Nil, false, set_);
    assert WithItems(after, Nil) == Nil <==> after == [];
  }

  lemma GroupOk(before: seq<Item>, xs: seq<Listed>, cap: bool, q: Quant, mode: Mode, after: seq<Item>)
    requires OkGroup(before, xs, cap, q, mode, after)
    ensures var a := Last(GroupBranch(before, Item(Group(cap, AltsOf(xs)), q, mode), after)); OkAlts(a) && Regular(a)
  {
    hide OkListed, WildAtom, BranchOf, AltsOf, OkQuant, OkItem, RegularAtom;
    FindWords(xs, [], true, true);
    ItemsOk(after, Nil);
    GroupItemOk(cap, AltsOf(xs), q, mode);
    GroupBranchOk(before, Item(Group(cap, AltsOf(xs)), q, mode), WithItems(after, Nil));
  }

  lemma GroupItemOk(cap: bool, alts: Alts, q: Quant, mode: Mode)
    requires OkAlts(alts) && Regular(alts) && OkQuant(q, mode)
    ensures OkItem(Item(Group(cap, alts), q, mode)) && RegularAtom(Group(cap, alts))
  {
    hide OkAlts, Regular, OkQuant;
  }

  lemma GroupBranchOk(before: seq<Item>, group: Item, t: Branch)
    requires OkItem(group) && RegularAtom(group.atom) && OkBranch(t) && RegularBranch(t)
    requires forall k :: 0 <= k < |before| ==> Wildcard(before[k])
    ensures OkBranch(WithItems(before, Cons(group, t))) && RegularBranch(WithItems(before, Cons(group, t)))
  {
    hide OkItem, RegularAtom, WildAtom;
    ItemsOk(before, Cons(group, t));
  }
}
