/** Where cl_regopt_analyse claims too much: end anchors behind a quantified literal, braces that are
    no quantifier, and sets that start with `[^]`. */
module RegoptLimits {
  import opened RegexSyntax
  import opened RegoptReaders
  import opened RegoptParse
  import opened RegoptTree
  import opened RegoptSound
  import opened RegoptEnds

  // ----- the end anchor of a single grain

  lemma SingleAlternative(lang: Lang, a: Alts, w: Text)
    requires InAlts(lang, a, w) && AltsEnd(a) && |AltLits(a)| == 1
    ensures Inhabited(lang, a)
  {
    hide FindInBranch, InBranch;
    if a.Or? { AltsHaveLiterals(a.more); }
  }

  lemma AltsHaveLiterals(a: Alts)
    requires AltsEnd(a)
    ensures |AltLits(a)| >= 1
  {
    hide FindInBranch;
  }

  lemma {:induction false} SingleEnd(lang: Lang, b: Branch, w: Text)
    requires InBranch(lang, b, w) && BranchEnds(b) && |EndOfBranch(b)| == 1
    ensures EndInhabited(lang, b)
  {
    hide InItem, AltsEnd, AltLits, Inhabited;
    var l := LeadingLiterals(b);
    if GrainOf(l) != [] {
      LiteralsShrink(b);
      var n, u := LiteralParts(lang, b, w);
      if l.rest != Nil { SingleEnd(lang, l.rest, u); }
    } else {
      var j :| 0 <= j <= |w| && InItem(lang, b.head, w[..j]) && InBranch(lang, b.tail, w[j..]);
      if b.tail != Nil {
        SingleEnd(lang, b.tail, w[j..]);
      } else {
        var x, y := GroupParts(lang, b.head, w[..j]);
        SingleAlternative(lang, b.head.atom.alts, x);
      }
    }
  }

  /** For a regex that stores one grain with an end anchor and matches anything at all, the anchor
      is right exactly when no quantifier can lengthen the match behind the grain. */
  lemma EndAnchorExact(lang: Lang, a: Alts, w0: Text)
    requires OkAlts(a) && Regular(a) && InAlts(lang, a, w0)
    requires var o := Analyse(PAlts(a)); o.ok && o.set_.anchorEnd && |o.set_.grains| == 1
    ensures |EndLiterals(a)| == 1
    ensures (forall w :: InAlts(lang, a, w) ==> EndsWith(Analyse(PAlts(a)).set_.grains[0], w))
            <==> ExactTail(EndLiterals(a)[0])
    ensures EndReliable(a) <==> ExactTail(EndLiterals(a)[0])
  {
    hide Analyse, OkAlts, Regular, PAlts, ExactTail, FindInAlts, InBranch, AltsEnd, BranchEnds, EndOfBranch, AltLits,
         Image, CountOk, EndInhabited, Inhabited, AnalyseTree;
    AnalyseText(a);
    StoredEnd(a);
    EndsFreely(a);
    var l := EndLiterals(a)[0];
    assert EndLiterals(a) == [l] && Analyse(PAlts(a)).set_.grains[0] == GrainOf(l);
    FirstExact(l);
    if Bare(a) { SingleAlternative(lang, a, w0); } else { SingleEnd(lang, a.b, w0); }
    if ExactTail(l) {
      forall w | InAlts(lang, a, w) ensures EndsWith(GrainOf(l), w) {
        var k, n, v := EndParts(lang, a, w);
        ExactTailEnds(l, n);
        GrainPrefix(l, n);
        EndsLater(GrainOf(l), v, Image(l, n));
      }
    } else {
      var n := InexactTailFails(l);
      var v := EndBuild(lang, a, 0, n);
    }
  }

  // ----- concrete failures

  function Plain(c: Char): Item
  {
    Item(Lit(c), Once, Greedy)
  }

  /** `abc` with a quantifier behind it. */
  function Abc(q: Quant): Alts
  {
    Last(Cons(Plain('a'), Cons(Plain('b'), Cons(Item(Lit('c'), q, Greedy), Nil))))
  }

  /** `abc+` is stored as the grain `abc` anchored at both ends, yet it matches `abcc`. */
  lemma EndAnchorFailure(lang: Lang)
    ensures PAlts(Abc(Plus)) == "abc+" && OkAlts(Abc(Plus)) && Regular(Abc(Plus))
    ensures Analyse("abc+") == Outcome(true, GrainSet(["abc"], 3, true, true))
    ensures InAlts(lang, Abc(Plus), "abcc") && !EndsWith("abc", "abcc")
  {
    hide Analyse, AnalyseTree, InAlts, Abc;
    AbcText(Plus);
    AbcScan(Plus);
    AnalyseText(Abc(Plus));
    assert Repeat('c', 1) == "c";
    assert Repeat('c', 2) == "cc";
    AbcMatches(lang, Plus, 2);
    assert "ab" + Symbols('c', Plus, 2) == "abcc";
    assert "abcc"[1..] == "bcc";
    assert "bcc"[0] != "abc"[0];
  }

  /** PCRE takes `{}` for literal text: `abc{}` matches just itself, but it is stored as the grain
      `ab` anchored at both ends. */
  lemma BracesFailure(lang: Lang)
    ensures PAlts(Abc(Braces([]))) == "abc{}" && OkAlts(Abc(Braces([]))) && Regular(Abc(Braces([])))
    ensures Analyse("abc{}") == Outcome(true, GrainSet(["ab"], 2, true, true))
    ensures InAlts(lang, Abc(Braces([])), "abc{}") && !EndsWith("ab", "abc{}")
  {
    hide Analyse, AnalyseTree, InAlts, Abc;
    var q := Braces([]);
    AbcText(q);
    AbcScan(q);
    AnalyseText(Abc(q));
    assert Repeat('}', 1) == "}";
    AbcMatches(lang, q, 1);
    assert BraceText([], 1) == "{}";
    assert "ab" + Symbols('c', q, 1) == "abc{}";
    assert "abc{}"[3..] == "{}";
    assert "{}"[0] != "ab"[0];
  }

  lemma AbcText(q: Quant)
    requires q == Plus || q == Braces([])
    ensures PAlts(Abc(q)) == "abc" + PQuant(q, Greedy) && OkAlts(Abc(q)) && Regular(Abc(q))
    ensures PQuant(Plus, Greedy) == "+" && PQuant(Braces([]), Greedy) == "{}"
  {
    var c := Cons(Item(Lit('c'), q, Greedy), Nil);
    var bc := Cons(Plain('b'), c);
    assert PBranch(c) == "c" + PQuant(q, Greedy) && OkBranch(c) && RegularBranch(c);
    assert PItem(Plain('b')) == "b" && PItem(Plain('a')) == "a";
    assert PBranch(bc) == "bc" + PQuant(q, Greedy) && OkBranch(bc) && RegularBranch(bc);
  }

  lemma AbcLiterals(q: Quant)
    requires q != Once
    ensures LeadingLiterals(Abc(q).b) == TreeLiterals("abc", q, Greedy, Nil)
  {
    var c := Cons(Item(Lit('c'), q, Greedy), Nil);
    var bc := Cons(Plain('b'), c);
    assert LeadingLiterals(c) == TreeLiterals("c", q, Greedy, Nil);
    assert LeadingLiterals(bc) == TreeLiterals("bc", q, Greedy, Nil);
  }

  lemma AbcScan(q: Quant)
    requires q == Plus || q == Braces([])
    ensures var g: Text := if q == Plus then "abc" else "ab";
            AnalyseTree(Abc(q)) == Outcome(true, GrainSet([g], |g|, true, true))
  {
    hide LeadingLiterals;
    AbcLiterals(q);
    var b := Abc(q).b;
    var g: Text := if q == Plus then "abc" else "ab";
    assert "abc"[..2] == "ab";
    assert GrainOf(LeadingLiterals(b)) == g;
    assert FindInBranch(b) == TreeFound(false, LeadingLiterals(b));
    var gs := [] + [g];
    assert gs == [g];
    assert FindInAlts(Abc(q), [], true, true) == TreeComplete(gs, true, true);
    assert Shortest(gs) == |g|;
  }

  lemma AbcMatches(lang: Lang, q: Quant, n: nat)
    requires q != Once && CountOk(q, Greedy, n)
    ensures InAlts(lang, Abc(q), "ab" + Symbols('c', q, n))
  {
    hide LeadingLiterals, InBranch, Symbols, CountOk;
    AbcLiterals(q);
    var l := LeadingLiterals(Abc(q).b);
    assert InBranch(lang, Nil, []) by { NilMatches(lang); }
    LiteralsBuild(lang, Abc(q).b, n, []);
    assert "abc"[..2] == "ab";
    assert Image(l, n) == "ab" + Symbols('c', q, n);
    assert Image(l, n) + [] == Image(l, n);
  }

  lemma NilMatches(lang: Lang)
    ensures InBranch(lang, Nil, [])
  {
  }

  function Singles(t: Text): (ms: seq<Text>)
    ensures |ms| == |t| && forall k :: 0 <= k < |t| ==> ms[k] == [t[k]]
  {
    if t == [] then [] else [[t[0]]] + Singles(t[1..])
  }

  lemma {:induction false} ConcatSingles(t: Text)
    ensures Concat(Singles(t)) == t
  {
    if t != [] {
      ConcatSingles(t[1..]);
      assert Singles(t)[1..] == Singles(t[1..]);
    }
  }

  /** `[^]w[m]`: one set of everything but `]`, `w`, `[` and `m`. */
  function NegatedSet(w: Text, m: Text): Alts
  {
    Last(Cons(Item(Any(Set(true, true, Singles(w + "[" + m))), Once, Greedy), Nil))
  }

  function NegatedSetText(w: Text, m: Text): Text
  {
    "[^]" + (w + ("[" + (m + "]")))
  }

  lemma {:induction false} WordIsLiteral(w: Text, rest: Text)
    requires All(SafeChar, w) && At(rest, 0) == '['
    ensures Literals(w + rest) == Grain(|w|, w)
  {
    if w == [] {
      assert w + rest == rest;
      LiteralsUnfold(rest);
    } else {
      assert (w + rest)[1..] == w[1..] + rest;
      WordIsLiteral(w[1..], rest);
      LiteralsUnfold(w + rest);
      assert [w[0]] + w[1..] == w;
    }
  }

  lemma {:induction false} MembersAreSafe(m: Text, rest: Text)
    requires All(SafeChar, m) && At(rest, 0) == ']'
    ensures MembersLen(m + rest) == |m|
  {
    if m == [] {
      assert m + rest == rest;
    } else {
      assert (m + rest)[1..] == m[1..] + rest;
      MembersAreSafe(m[1..], rest);
    }
  }

  /** Every regex of this family is accepted with `w` as its only grain, although it matches
      single characters only. */
  lemma NegatedSetFailure(lang: Lang, w: Text, m: Text, c: Char)
    requires |w| >= 2 && m != [] && All(SafeChar, w) && All(SafeChar, m)
    requires lang(NegatedSetText(w, m), [c])
    ensures var a, r := NegatedSet(w, m), NegatedSetText(w, m);
            OkAlts(a) && PAlts(a) == r && InAlts(lang, a, [c]) &&
            Analyse(r).ok && Analyse(r).set_.grains == [w] && !Occurs(w, [c])
  {
    hide *;
    NegatedSetTree(lang, w, m, c);
    ScanNegatedSet(w, m);
    var r := NegatedSetText(w, m);
    FirstUpdate(r, w);
  }

  lemma FirstUpdate(r: Text, w: Text)
    requires |w| >= 2
    requires At(r, 0) != '(' && Alternatives(r, true, [], true, true) == Complete(|r| + 1, [w], false, false)
    ensures Analyse(r).ok && Analyse(r).set_.grains == [w]
  {
    hide Alternatives;
    assert Shortest([w]) == |w|;
  }

  lemma ScanNegatedSet(w: Text, m: Text)
    requires |w| >= 2 && m != [] && All(SafeChar, w) && All(SafeChar, m)
    ensures var r := NegatedSetText(w, m);
            At(r, 0) == '[' && Alternatives(r, true, [], true, true) == Complete(|r| + 1, [w], false, false)
  {
    hide SafeChar, WildcardLen, ReadGrain, FindGrain, TailLen, Alternatives;
    var set_: Text := "[" + (m + "]");
    var body := w + set_;
    var r := NegatedSetText(w, m);
    assert r == "[^]" + body;
    Split("[^]", body);
    Split(w, set_);
    WordStart(w, set_);
    NegatedSetOpening(r);
    WordGrain(w, set_);
    FoundBehindSet(r, body, w);
    assert r[3 + |w|..] == set_;
    SetReadsThrough(m);
    assert [] + [w] == [w];
    AlternativesUnfold(r, true, [], true, true);
  }

  lemma NegatedSetOpening(r: Text)
    requires At(r, 0) == '[' && At(r, 1) == '^' && At(r, 2) == ']' && |r| >= 3 && Follows(r[3..])
    ensures WildcardLen(r) == 3 && ReadGrain(r) == Grain(0, [])
  {
    BracketsNotSafe();
    hide SafeChar;
    assert MembersLen(r[2..]) == 0;
    assert MatchallLen(r) == 3;
    LiteralsUnfold(r);
  }

  lemma WordGrain(w: Text, set_: Text)
    requires w != [] && All(SafeChar, w) && At(set_, 0) == '['
    ensures ReadGrain(w + set_) == Grain(|w|, w)
  {
    hide SafeChar, Literals;
    WordIsLiteral(w, set_);
    Split(w, set_);
    assert ReadKleene(set_).len == 0;
  }

  lemma FoundBehindSet(r: Text, body: Text, w: Text)
    requires |r| >= 3 && r[3..] == body && WildcardLen(r) == 3
    requires ReadGrain(r) == Grain(0, []) && ReadGrain(body) == Grain(|w|, w) && w != []
    ensures FindGrain(r) == Found(3, Grain(|w|, w))
  {
    hide WildcardLen, ReadGrain;
    assert FindGrain(body) == Found(0, Grain(|w|, w));
  }

  lemma BracketsNotSafe()
    ensures !SafeChar('[') && !SafeChar(']') && !AsciiPunct('\0')
  {
  }

  lemma WordStart(w: Text, rest: Text)
    requires |w| >= 1 && All(SafeChar, w)
    ensures Follows(w + rest)
  {
    assert (w + rest)[0] == w[0];
  }

  lemma SetReadsThrough(m: Text)
    requires m != [] && All(SafeChar, m)
    ensures var r: Text := "[" + (m + "]"); WildcardLen(r) == |r| && TailLen(r) == |r|
  {
    var r: Text := "[" + (m + "]");
    BracketsNotSafe();
    WordStart(m, "]");
    assert r[1..] == m + "]";
    assert At(r, 1) == m[0];
    assert m[0] != '^' by { assert !SafeChar('^'); }
    MembersAreSafe(m, "]");
    assert MatchallLen(r) == |r|;
    assert r[|r|..] == [];
    assert TailLen(r[|r|..]) == 0;
  }

  lemma NegatedSetTree(lang: Lang, w: Text, m: Text, c: Char)
    requires All(SafeChar, w) && All(SafeChar, m)
    requires |w| >= 2 && lang(NegatedSetText(w, m), [c])
    ensures var a, r := NegatedSet(w, m), NegatedSetText(w, m);
            OkAlts(a) && PAlts(a) == r && InAlts(lang, a, [c]) && !Occurs(w, [c])
  {
    var t: Text := w + "[" + m;
    var ms := Singles(t);
    ConcatSingles(t);
    SinglesOk(w, m);
    NegatedSetShape(w, m, ms);
    LongGrainMissing(w, c);
    hide PElem, NegatedSetText, SimpleMember, OtherMember, InAlts, OkAlts, PAlts, Occurs;
    var e := Set(true, true, ms);
    assert OkSet(e);
    SingleElement(lang, e, [c]);
  }

  lemma NegatedSetShape(w: Text, m: Text, ms: seq<Text>)
    requires Concat(ms) == w + "[" + m
    ensures PElem(Set(true, true, ms)) == NegatedSetText(w, m)
  {
    hide Concat;
    var t := Concat(ms);
    var open: Text := "[";
    assert open + "^" + "]" == "[^]";
    assert "[^]" + t + "]" == NegatedSetText(w, m);
  }

  lemma LongGrainMissing(w: Text, c: Char)
    requires |w| >= 2
    ensures !Occurs(w, [c])
  {
  }

  lemma SinglesOk(w: Text, m: Text)
    requires All(SafeChar, w) && All(SafeChar, m)
    ensures var ms := Singles(w + "[" + m);
            forall k :: 0 <= k < |ms| ==> SimpleMember(ms[k]) || OtherMember(ms[k])
  {
    BracketsNotSafe();
    hide SafeChar, OkEscape;
    var t: Text := w + "[" + m;
    forall k | 0 <= k < |t| ensures SimpleMember([t[k]]) || OtherMember([t[k]]) {
      assert t[k] == if k < |w| then w[k] else if k == |w| then '[' else m[k - |w| - 1];
    }
  }

  lemma SingleElement(lang: Lang, e: Elem, s: Text)
    requires OkElem(e) && lang(PElem(e), s)
    ensures var a := Last(Cons(Item(Any(e), Once, Greedy), Nil));
            OkAlts(a) && PAlts(a) == PElem(e) && InAlts(lang, a, s)
  {
    hide PElem, OkElem;
    var i := Item(Any(e), Once, Greedy);
    assert OkItem(i) && OkBranch(Nil);
    assert OkBranch(Cons(i, Nil));
    assert PItem(i) == PElem(e);
    assert PBranch(Cons(i, Nil)) == PElem(e);
    assert s[..|s|] == s && s[|s|..] == [];
    assert InPower(lang, i.atom, 0, []);
    assert InPower(lang, i.atom, 1, s);
    OnceCount(Greedy);
    Joined(lang, i, Nil, s, [], 1);
    assert s + [] == s;
  }
}
