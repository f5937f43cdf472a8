/** What cl_regopt_analyse extracts, said about the regex tree, and the proof that the scan of the
    tree's text extracts just that. */
module RegoptTree {
  import opened RegexSyntax
  import opened RegoptReaders
  import opened RegoptParse

  // ----- the scan, on trees

  /** The literal symbols a branch starts with, up to and including the first quantified one. */
  datatype TreeLiterals = TreeLiterals(text: Text, q: Quant, mode: Mode, rest: Branch)

  function LeadingLiterals(b: Branch): (l: TreeLiterals)
    ensures l.text == [] ==> l.q == Once && l.rest == b
  {
    match b
    case Cons(Item(a, q, m), t) =>
      if a.Lit? || a.EscLit? then
        if q == Once then
          var l := LeadingLiterals(t);
          TreeLiterals([a.c] + l.text, l.q, l.mode, l.rest)
        else TreeLiterals([a.c], q, m, t)
      else TreeLiterals([], Once, Greedy, b)
    case Nil => TreeLiterals([], Once, Greedy, b)
  }

  /** The grain at the front of a branch; `[]` when there is none. */
  function GrainOf(l: TreeLiterals): Text
  {
    if l.text != [] && !Mandatory(l.q) then l.text[..|l.text| - 1] else l.text
  }

  datatype TreeFound = TreeMissing | TreeFound(skipped: bool, literals: TreeLiterals)

  function FindInBranch(b: Branch): (f: TreeFound)
    ensures f.TreeFound? ==> GrainOf(f.literals) != []
  {
    var l := LeadingLiterals(b);
    if GrainOf(l) != [] then TreeFound(false, l)
    else
      match b
      case Nil => TreeMissing
      case Cons(i, t) =>
        if !WildAtom(i.atom) then TreeMissing
        else
          match FindInBranch(t)
          case TreeMissing => TreeMissing
          case TreeFound(_, l) => TreeFound(true, l)
  }

  datatype TreeDisjunction = TreeFailed | TreeComplete(grains: seq<Text>, alignStart: bool, alignEnd: bool)

  function FindInAlts(a: Alts, grains: seq<Text>, alignStart: bool, alignEnd: bool): TreeDisjunction
  {
    var b := match a case Last(b) => b case Or(b, _) => b;
    match FindInBranch(b)
    case TreeMissing => TreeFailed
    case TreeFound(skipped, l) =>
      var gs := grains + [GrainOf(l)];
      var s, e := alignStart && !skipped, alignEnd && l.rest == Nil;
      if |gs| >= MAX_GRAINS || !WildBranch(l.rest) then TreeFailed
      else match a case Last(_) => TreeComplete(gs, s, e) case Or(_, more) => FindInAlts(more, gs, s, e)
  }

  function FindInGroup(a: Atom): TreeDisjunction
  {
    match a case Group(_, alts) => FindInAlts(alts, [], true, true) case _ => TreeFailed
  }

  function ScanBranch(b: Branch, atStart: bool, cur: GrainSet): Outcome
  {
    match b
    case Nil => Outcome(cur.grains != [], cur)
    case Cons(i, t) =>
      var l := LeadingLiterals(b);
      if GrainOf(l) != [] then
        LiteralsShrink(b);
        ScanBranch(l.rest, false, Update(cur, [GrainOf(l)], atStart, l.rest == Nil))
      else
        match FindInGroup(i.atom)
        case TreeComplete(gs, s, e) =>
          var cur' := if Mandatory(i.q)
                      then Update(cur, gs, atStart && s, t == Nil && i.q == Once && e) else cur;
          ScanBranch(t, false, cur')
        case TreeFailed =>
          if WildAtom(i.atom) then ScanBranch(t, false, cur) else Outcome(false, cur)
  }

  lemma LiteralsShrink(b: Branch)
    ensures LeadingLiterals(b).text != [] ==> LeadingLiterals(b).rest < b
  {
  }

  predicate StartsWithGroup(a: Alts)
  {
    var b := match a case Last(b) => b case Or(b, _) => b;
    b.Cons? && b.head.atom.Group?
  }

  function AnalyseTree(a: Alts): Outcome
  {
    match if StartsWithGroup(a) then TreeFailed else FindInAlts(a, [], true, true)
    case TreeComplete(gs, s, e) =>
      var set_ := Update(EmptySet, gs, s, e);
      Outcome(set_.grains != [], set_)
    case TreeFailed =>
      match a case Last(b) => ScanBranch(b, true, EmptySet) case Or(_, _) => Outcome(false, EmptySet)
  }

  // ----- literals

  lemma {:induction false} LiteralsText(b: Branch, post: Text)
    requires OkBranch(b) && RegularBranch(b) && Closes(post)
    ensures var r, l := PBranch(b) + post, LeadingLiterals(b);
            Literals(r).text == l.text &&
            r[Literals(r).len..] == PQuant(l.q, l.mode) + (PBranch(l.rest) + post) &&
            OkQuant(l.q, l.mode) && OkBranch(l.rest) && RegularBranch(l.rest)
  {
    hide SafeChar, Escaped, PAtom, OkAtom, RegularAtom, Literals;
    var r := PBranch(b) + post;
    match b
    case Nil =>
      assert r == post;
      NothingAtClose(post);
      assert PBranch(Nil) + post == post;
    case Cons(i, t) =>
      var q := PQuant(i.q, i.mode);
      var rest := PBranch(t) + post;
      Assoc(PItem(i), PBranch(t), post);
      Assoc(PAtom(i.atom), q, rest);
      assert r == PAtom(i.atom) + (q + rest);
      Split(PAtom(i.atom), q + rest);
      BranchStart(t, post);
      if i.atom.Lit? || i.atom.EscLit? {
        LiteralStep(i.atom, q + rest);
        if i.q == Once {
          assert q + rest == rest;
          LiteralsText(t, post);
          Behind(PAtom(i.atom), rest, Literals(rest).len);
        } else {
          QuantifierEnds(i.q, i.mode, rest);
          Behind(PAtom(i.atom), q + rest, 0);
        }
      } else {
        NotLiteral(i.atom, q + rest);
        Behind([], r, 0);
      }
  }

  lemma Behind(a: Text, b: Text, k: nat)
    requires k <= |b|
    ensures (a + b)[|a| + k..] == b[k..] && b[0..] == b && [] + b == b
  {
  }

  lemma LiteralStep(a: Atom, tail: Text)
    requires (a.Lit? || a.EscLit?) && OkAtom(a)
    ensures Literals(PAtom(a) + tail) ==
            var g := Literals(tail); Grain(|PAtom(a)| + g.len, [a.c] + g.text)
  {
    hide AsciiPunct, Literals;
    var r := PAtom(a) + tail;
    Split(PAtom(a), tail);
    LiteralsUnfold(r);
    if a.EscLit? {
      assert At(r, 0) == '\\' && !SafeChar('\\');
      assert At(r, 1) == a.c;
    } else {
      assert At(r, 0) == a.c;
    }
  }

  lemma QuantifierEnds(q: Quant, m: Mode, rest: Text)
    requires q != Once
    ensures Literals(PQuant(q, m) + rest) == Grain(0, [])
  {
    var r := PQuant(q, m) + rest;
    assert At(r, 0) == PQuant(q, m)[0];
    assert At(r, 0) in {'?', '*', '+', '{'};
    LiteralsUnfold(r);
  }

  lemma NotLiteral(a: Atom, tail: Text)
    requires OkAtom(a) && RegularAtom(a) && !a.Lit? && !a.EscLit?
    ensures Literals(PAtom(a) + tail) == Grain(0, [])
  {
    var r := PAtom(a) + tail;
    hide SafeChar;
    match a
    case Any(e) => ElemText(e, tail);
    case Group(cap, alts) =>
      assert r == POpen(cap) + (PAlts(alts) + ([')'] + tail));
      assert At(r, 0) == '(';
      assert !SafeChar('(') by { NotSafe(); }
    LiteralsUnfold(r);
  }

  lemma NotSafe()
    ensures !SafeChar('(') && !SafeChar('|') && !SafeChar(')') && !SafeChar('\0')
  {
  }

  lemma GrainText(b: Branch, post: Text)
    requires OkBranch(b) && RegularBranch(b) && Closes(post)
    ensures var r, l := PBranch(b) + post, LeadingLiterals(b);
            var g := ReadGrain(r);
            g.text == GrainOf(l) && OkBranch(l.rest) && RegularBranch(l.rest) &&
            (g.len > 0 ==> r[g.len..] == PBranch(l.rest) + post)
  {
    hide Literals, ReadKleene, PBranch, OkBranch, RegularBranch, OkQuant, LeadingLiterals;
    var r, l := PBranch(b) + post, LeadingLiterals(b);
    var rest := PBranch(l.rest) + post;
    LiteralsText(b, post);
    BranchStart(l.rest, post);
    KleeneText(l.q, l.mode, rest);
    Split(PQuant(l.q, l.mode), rest);
    GrainFrom(r, l, rest);
  }

  /** read_grain, once its literals and their quantifier are known. */
  lemma GrainFrom(r: Text, l: TreeLiterals, rest: Text)
    requires Literals(r).text == l.text && r[Literals(r).len..] == PQuant(l.q, l.mode) + rest
    requires var k := ReadKleene(PQuant(l.q, l.mode) + rest);
             k.len == |PQuant(l.q, l.mode)| && (l.q != Once ==> k.len > 0 && k.oneOrMore == Mandatory(l.q))
    requires (PQuant(l.q, l.mode) + rest)[|PQuant(l.q, l.mode)|..] == rest
    ensures ReadGrain(r).text == GrainOf(l) && (ReadGrain(r).len > 0 ==> r[ReadGrain(r).len..] == rest)
  {
    hide Literals, ReadKleene, Mandatory;
    assert Mandatory(Once) by { OnceIsMandatory(); }
    Drop(r, Literals(r).len, |PQuant(l.q, l.mode)|);
  }

  lemma OnceIsMandatory()
    ensures Mandatory(Once)
  {
  }

  // ----- wildcards before and after a grain

  lemma NothingAtClose(post: Text)
    requires Closes(post)
    ensures WildcardLen(post) == 0 && ReadGrain(post).len == 0 && Literals(post) == Grain(0, [])
  {
    NotSafe();
    hide SafeChar;
    assert At(post, 0) in {'\0', '|', ')'};
    assert MatchallLen(post) == 0 && OpenLen(post) == 0;
    LiteralsUnfold(post);
  }

  lemma {:induction false} FindText(b: Branch, post: Text)
    requires OkBranch(b) && RegularBranch(b) && Closes(post)
    ensures var r := PBranch(b) + post;
            match FindInBranch(b)
            case TreeMissing => FindGrain(r) == Missing
            case TreeFound(skipped, l) =>
              FindGrain(r).Found? && FindGrain(r).grain.text == GrainOf(l) &&
              (FindGrain(r).skip == 0 <==> !skipped) &&
              OkBranch(l.rest) && RegularBranch(l.rest) &&
              r[FindGrain(r).skip + FindGrain(r).grain.len..] == PBranch(l.rest) + post
  {
    hide ReadGrain, WildcardLen, WildAtom, LeadingLiterals, GrainOf, PItem;
    var r := PBranch(b) + post;
    GrainText(b, post);
    if ReadGrain(r).len == 0 {
      match b
      case Nil =>
        assert r == post;
        NothingAtClose(post);
      case Cons(i, t) =>
        var rest := PBranch(t) + post;
        Assoc(PItem(i), PBranch(t), post);
        Split(PItem(i), rest);
        BranchStart(t, post);
        WildcardItem(i, rest);
        ItemNotEmpty(i);
        FindText(t, post);
        if WildAtom(i.atom) && FindInBranch(t).TreeFound? {
          var f := FindGrain(rest);
          Behind(PItem(i), rest, f.skip + f.grain.len);
        }
    }
  }

  lemma ItemNotEmpty(i: Item)
    requires OkItem(i)
    ensures |PItem(i)| > 0
  {
    AtomStart(i.atom);
  }

  lemma {:induction false} TailText(b: Branch, post: Text)
    requires OkBranch(b) && RegularBranch(b) && Closes(post)
    ensures var r := PBranch(b) + post;
            if WildBranch(b) then TailLen(r) == |PBranch(b)|
            else TailLen(r) < |r| && At(r, TailLen(r)) != '|' && At(r, TailLen(r)) != ')'
  {
    hide WildcardLen, WildAtom, PItem;
    var r := PBranch(b) + post;
    match b
    case Nil =>
      assert r == post;
      NothingAtClose(post);
    case Cons(i, t) =>
      var rest := PBranch(t) + post;
      assert r == PItem(i) + rest;
      Split(PItem(i), rest);
      BranchStart(t, post);
      BranchStart(b, post);
      WildcardItem(i, rest);
      ItemNotEmpty(i);
      TailText(t, post);
  }

  // ----- disjunctions

  predicate EndsDisjunction(post: Text, bare: bool)
  {
    if bare then post == [] else At(post, 0) == ')'
  }

  lemma {:induction false} AlternativesText(a: Alts, post: Text, bare: bool,
                                            grains: seq<Text>, s: bool, e: bool)
    requires OkAlts(a) && Regular(a) && EndsDisjunction(post, bare)
    ensures Alternatives(PAlts(a) + post, bare, grains, s, e) ==
            match FindInAlts(a, grains, s, e)
            case TreeFailed => Failed
            case TreeComplete(gs, s', e') => Complete(|PAlts(a)| + 1, gs, s', e')
  {
    match a
    case Last(b) => LastAlternative(b, post, bare, grains, s, e);
    case Or(b, more) =>
      if FindInBranch(b).TreeFound? {
        var l := FindInBranch(b).literals;
        AlternativesText(more, post, bare, grains + [GrainOf(l)], s && !FindInBranch(b).skipped, e && l.rest == Nil);
      }
      AlternativeBeforeBar(b, more, post, bare, grains, s, e);
  }

  lemma LastAlternative(b: Branch, post: Text, bare: bool, grains: seq<Text>, s: bool, e: bool)
    requires OkBranch(b) && RegularBranch(b) && EndsDisjunction(post, bare)
    ensures Alternatives(PBranch(b) + post, bare, grains, s, e) ==
            match FindInAlts(Last(b), grains, s, e)
            case TreeFailed => Failed
            case TreeComplete(gs, s', e') => Complete(|PBranch(b)| + 1, gs, s', e')
  {
    hide FindGrain, TailLen, FindInBranch, WildBranch, GrainOf, PBranch, Alternatives, OkBranch, RegularBranch;
    var r := PBranch(b) + post;
    AlternativeStep(b, post);
    Split(PBranch(b), post);
    AtEnd(r, |PBranch(b)|, post);
    match FindInBranch(b)
    case TreeMissing => UnfoldStuck(r, bare, grains, s, e);
    case TreeFound(_, l) =>
      if WildBranch(l.rest) {
        UnfoldAtEnd(r, |PBranch(b)|, bare, grains, s, e);
      } else {
        UnfoldStuck(r, bare, grains, s, e);
      }
  }

  lemma UnfoldAtEnd(r: Text, j: nat, bare: bool, grains: seq<Text>, s: bool, e: bool)
    requires FindGrain(r).Found? && j <= |r| && (if bare then j == |r| else At(r, j) == ')')
    requires var f := FindGrain(r); j == f.skip + f.grain.len + TailLen(r[f.skip + f.grain.len..])
    ensures var f := FindGrain(r);
            var gs := grains + [f.grain.text];
            Alternatives(r, bare, grains, s, e) ==
            if |gs| >= MAX_GRAINS then Failed
            else Complete(j + 1, gs, s && f.skip == 0, e && TailLen(r[f.skip + f.grain.len..]) == 0)
  {
    hide FindGrain, TailLen, Alternatives;
    AlternativesUnfold(r, bare, grains, s, e);
  }

  lemma AlternativeBeforeBar(b: Branch, more: Alts, post: Text, bare: bool, grains: seq<Text>, s: bool, e: bool)
    requires OkBranch(b) && RegularBranch(b)
    requires var f := FindInBranch(b);
             f.TreeFound? ==>
               var gs, s', e' := grains + [GrainOf(f.literals)], s && !f.skipped, e && f.literals.rest == Nil;
               Alternatives(PAlts(more) + post, bare, gs, s', e') ==
               match FindInAlts(more, gs, s', e')
               case TreeFailed => Failed
               case TreeComplete(gs, s, e) => Complete(|PAlts(more)| + 1, gs, s, e)
    ensures Alternatives(PAlts(Or(b, more)) + post, bare, grains, s, e) ==
            match FindInAlts(Or(b, more), grains, s, e)
            case TreeFailed => Failed
            case TreeComplete(gs, s, e) => Complete(|PAlts(Or(b, more))| + 1, gs, s, e)
  {
    hide FindGrain, TailLen, FindInBranch, WildBranch, GrainOf, PBranch, Alternatives, OkBranch, RegularBranch;
    OrText(b, more, post);
    StepAtBar(b, PAlts(more) + post, bare, grains, s, e);
  }

  lemma OrText(b: Branch, more: Alts, post: Text)
    ensures PAlts(Or(b, more)) + post == PBranch(b) + (['|'] + (PAlts(more) + post))
    ensures |PAlts(Or(b, more))| == |PBranch(b)| + 1 + |PAlts(more)|
  {
    hide PBranch;
    Assoc(PBranch(b) + ['|'], PAlts(more), post);
    Assoc(PBranch(b), ['|'], PAlts(more) + post);
  }

  lemma StepAtBar(b: Branch, rest: Text, bare: bool, grains: seq<Text>, s: bool, e: bool)
    requires OkBranch(b) && RegularBranch(b)
    ensures Alternatives(PBranch(b) + (['|'] + rest), bare, grains, s, e) ==
            match FindInBranch(b)
            case TreeMissing => Failed
            case TreeFound(skipped, l) =>
              var gs := grains + [GrainOf(l)];
              if |gs| >= MAX_GRAINS || !WildBranch(l.rest) then Failed
              else
                match Alternatives(rest, bare, gs, s && !skipped, e && l.rest == Nil)
                case Failed => Failed
                case Complete(len, gs', s', e') => Complete(|PBranch(b)| + 1 + len, gs', s', e')
  {
    hide FindGrain, TailLen, FindInBranch, WildBranch, GrainOf, PBranch, Alternatives, OkBranch, RegularBranch;
    var bar := ['|'] + rest;
    var r := PBranch(b) + bar;
    AlternativeStep(b, bar);
    Split(PBranch(b), bar);
    BehindBar(PBranch(b), rest);
    match FindInBranch(b)
    case TreeMissing => UnfoldStuck(r, bare, grains, s, e);
    case TreeFound(_, l) =>
      if WildBranch(l.rest) {
        UnfoldAtBar(r, |PBranch(b)|, rest, bare, grains, s, e);
      } else {
        UnfoldStuck(r, bare, grains, s, e);
      }
  }

  lemma UnfoldStuck(r: Text, bare: bool, grains: seq<Text>, s: bool, e: bool)
    requires match FindGrain(r)
             case Missing => true
             case Found(skip, g) =>
               var j := skip + g.len + TailLen(r[skip + g.len..]);
               j < |r| && At(r, j) != '|' && At(r, j) != ')'
    ensures Alternatives(r, bare, grains, s, e) == Failed
  {
    hide FindGrain, TailLen, Alternatives;
    AlternativesUnfold(r, bare, grains, s, e);
  }

  lemma UnfoldAtBar(r: Text, j: nat, rest: Text, bare: bool, grains: seq<Text>, s: bool, e: bool)
    requires FindGrain(r).Found? && j < |r| && At(r, j) == '|' && r[j + 1..] == rest
    requires var f := FindGrain(r); j == f.skip + f.grain.len + TailLen(r[f.skip + f.grain.len..])
    ensures var f := FindGrain(r);
            var gs := grains + [f.grain.text];
            Alternatives(r, bare, grains, s, e) ==
            if |gs| >= MAX_GRAINS then Failed
            else
              match Alternatives(rest, bare, gs, s && f.skip == 0, e && TailLen(r[f.skip + f.grain.len..]) == 0)
              case Failed => Failed
              case Complete(len, gs', s', e') => Complete(j + 1 + len, gs', s', e')
  {
    hide FindGrain, TailLen, Alternatives;
    AlternativesUnfold(r, bare, grains, s, e);
  }

  lemma BehindBar(x: Text, rest: Text)
    ensures (x + (['|'] + rest))[|x| + 1..] == rest
  {
  }

  lemma AtEnd(r: Text, j: nat, post: Text)
    requires j <= |r| && r[j..] == post
    ensures j == |r| <==> post == []
    ensures At(r, j) == At(post, 0)
  {
  }

  lemma AtSuffix(r: Text, i: nat, t: nat)
    requires i <= |r|
    ensures At(r, i + t) == At(r[i..], t)
  {
  }

  /** One turn of the loop over the alternatives. */
  lemma AlternativeStep(b: Branch, post: Text)
    requires OkBranch(b) && RegularBranch(b) && Closes(post)
    ensures var r, f := PBranch(b) + post, FindInBranch(b);
            if f.TreeMissing? then FindGrain(r) == Missing
            else
              FindGrain(r).Found? && FindGrain(r).grain.text == GrainOf(f.literals) &&
              (FindGrain(r).skip == 0 <==> !f.skipped) &&
              var i := FindGrain(r).skip + FindGrain(r).grain.len;
              var t := TailLen(r[i..]);
              (WildBranch(f.literals.rest) ==>
                i + t == |PBranch(b)| && r[i + t..] == post && At(r, i + t) == At(post, 0) &&
                (t == 0 <==> f.literals.rest == Nil)) &&
              (!WildBranch(f.literals.rest) ==>
                i + t < |r| && At(r, i + t) != '|' && At(r, i + t) != ')')
  {
    hide *;
    var r := PBranch(b) + post;
    FindText(b, post);
    if FindInBranch(b).TreeFound? {
      var l := FindInBranch(b).literals;
      var i := FindGrain(r).skip + FindGrain(r).grain.len;
      TailText(l.rest, post);
      BranchEmpty(l.rest);
      Split(PBranch(l.rest), post);
      var t := TailLen(r[i..]);
      assert r[i..][t..] == r[i + t..];
      AtSuffix(r, i, t);
      assert |r| - i == |PBranch(l.rest)| + |post|;
    }
  }

  lemma BranchEmpty(b: Branch)
    requires OkBranch(b)
    ensures PBranch(b) == [] <==> b == Nil
  {
    if b.Cons? { ItemNotEmpty(b.head); }
  }

  lemma GroupDisjunction(cap: bool, alts: Alts, tail: Text)
    requires OkAlts(alts) && Regular(alts)
    ensures var a := Group(cap, alts);
            ReadDisjunction(PAtom(a) + tail, false) ==
            match FindInGroup(a)
            case TreeFailed => Failed
            case TreeComplete(gs, s, e) => Complete(|PAtom(a)|, gs, s, e)
  {
    hide OpenLen, Alternatives, FindInAlts, PAlts;
    var close := [')'] + tail;
    var inner := PAlts(alts) + close;
    var r := PAtom(Group(cap, alts)) + tail;
    assert r == POpen(cap) + inner;
    assert At(close, 0) == ')';
    AltsStart(alts, close);
    Opening(cap, inner);
    Split(POpen(cap), inner);
    AlternativesText(alts, close, false, [], true, true);
  }

  lemma NoDisjunction(a: Atom, tail: Text)
    requires OkAtom(a) && RegularAtom(a) && !a.Group?
    ensures ReadDisjunction(PAtom(a) + tail, false) == Failed
  {
    var r := PAtom(a) + tail;
    Split(PAtom(a), tail);
    match a
    case Lit(c) => NotSafe(); assert At(r, 0) == c;
    case EscLit(c) => assert At(r, 0) == '\\';
    case Any(e) =>
      ElemText(e, tail);
      if ReadableElem(e) {
        ReadableStart(e);
        assert At(r, 0) == PElem(e)[0];
      } else if OpenLen(r) > 0 {
        assert At(r[1..], 0) == '*';
        StarFindsNothing(r[1..]);
      }
  }

  lemma ReadableStart(e: Elem)
    requires OkElem(e) && ReadableElem(e)
    ensures |PElem(e)| > 0 && PElem(e)[0] != '('
  {
  }

  lemma StarFindsNothing(r: Text)
    requires At(r, 0) == '*'
    ensures FindGrain(r) == Missing
  {
    assert MatchallLen(r) == 0 && OpenLen(r) == 0;
    assert Literals(r) == Grain(0, []);
  }

  lemma BranchStartsOpen(b: Branch, post: Text)
    requires OkBranch(b) && RegularBranch(b) && Closes(post)
    ensures b.Cons? && b.head.atom.Group? ==> At(PBranch(b) + post, 0) == '('
    ensures !(b.Cons? && b.head.atom.Group?) && At(PBranch(b) + post, 0) == '(' ==>
            FindInBranch(b) == TreeMissing
  {
    var r := PBranch(b) + post;
    if b.Cons? {
      var a := b.head.atom;
      AtomStart(a);
      assert PBranch(b) == PItem(b.head) + PBranch(b.tail);
      assert PItem(b.head) == PAtom(a) + PQuant(b.head.q, b.head.mode);
      assert At(r, 0) == PAtom(a)[0];
      if At(r, 0) == '(' && !a.Group? {
        NotSafe();
        if a.Any? && ReadableElem(a.e) {
          ReadableStart(a.e);
        }
        assert !WildAtom(a);
      }
    } else {
      assert r == post;
    }
  }

  // ----- the whole analysis

  /** One item that no grain starts with. */
  lemma ItemStep(i: Item, rest: Text)
    requires OkItem(i) && RegularAtom(i.atom) && Follows(rest)
    ensures var r := PItem(i) + rest;
            match FindInGroup(i.atom)
            case TreeComplete(gs, s, e) =>
              ReadDisjunction(r, false) == Complete(|PAtom(i.atom)|, gs, s, e) &&
              r[|PAtom(i.atom)|..] == PQuant(i.q, i.mode) + rest
            case TreeFailed => ReadDisjunction(r, false) == Failed
  {
    hide ReadDisjunction, FindInAlts, PAlts, PQuant;
    var tail := PQuant(i.q, i.mode) + rest;
    assert PItem(i) + rest == PAtom(i.atom) + tail;
    Split(PAtom(i.atom), tail);
    match i.atom
    case Group(cap, alts) => GroupDisjunction(cap, alts, tail);
    case _ => NoDisjunction(i.atom, tail);
  }

  lemma {:induction false} ScanText(b: Branch, atStart: bool, cur: GrainSet)
    requires OkBranch(b) && RegularBranch(b)
    ensures Scan(PBranch(b), atStart, cur) == ScanBranch(b, atStart, cur)
  {
    hide ReadGrain, ReadDisjunction, WildcardLen, ReadKleene, Update, FindInGroup, WildAtom, GrainOf, PItem, PAtom, PQuant, Mandatory;
    var r := PBranch(b);
    assert r + [] == r;
    BranchEmpty(b);
    if b.Cons? {
      var i, t := b.head, b.tail;
      var rest := PBranch(t);
      assert rest + [] == rest;
      GrainText(b, []);
      var g := ReadGrain(r);
      if g.len > 0 {
        var l := LeadingLiterals(b);
        LiteralsShrink(b);
        BranchEmpty(l.rest);
        assert PBranch(l.rest) + [] == PBranch(l.rest);
        ScanText(l.rest, false, Update(cur, [GrainOf(l)], atStart, l.rest == Nil));
      } else {
        BranchStart(t, []);
        ItemStep(i, rest);
        KleeneText(i.q, i.mode, rest);
        WildcardItem(i, rest);
        ItemNotEmpty(i);
        ItemLength(i);
        BranchEmpty(t);
        Split(PItem(i), rest);
        match FindInGroup(i.atom)
        case TreeComplete(gs, s, e) =>
          ScanGroup(r, i, rest, gs, s, e, atStart, cur);
          ScanText(t, false, if Mandatory(i.q) then Update(cur, gs, atStart && s, t == Nil && i.q == Once && e) else cur);
        case TreeFailed =>
          ScanText(t, false, cur);
      }
    }
  }

  lemma ItemLength(i: Item)
    requires OkItem(i)
    ensures |PItem(i)| == |PAtom(i.atom)| + |PQuant(i.q, i.mode)|
    ensures PQuant(i.q, i.mode) == [] <==> i.q == Once
  {
  }

  lemma ScanGroup(r: Text, i: Item, rest: Text, gs: seq<Text>, s: bool, e: bool, atStart: bool, cur: GrainSet)
    requires OkItem(i) && Follows(rest) && r == PItem(i) + rest && r != []
    requires ReadGrain(r).len == 0
    requires ReadDisjunction(r, false) == Complete(|PAtom(i.atom)|, gs, s, e)
    requires r[|PAtom(i.atom)|..] == PQuant(i.q, i.mode) + rest
    ensures Scan(r, atStart, cur) ==
            Scan(rest, false, if Mandatory(i.q) then Update(cur, gs, atStart && s, rest == [] && i.q == Once && e) else cur)
  {
    hide ReadGrain, ReadDisjunction, ReadKleene, Update, PAtom, PQuant;
    KleeneText(i.q, i.mode, rest);
    ItemLength(i);
    var len := |PAtom(i.atom)|;
    var k := ReadKleene(r[len..]);
    assert r[len + k.len..] == rest;
    assert len == |r| <==> i.q == Once && rest == [];
  }

  /** A `|` outside any group stops the scan. */
  lemma {:induction false} ScanStopsAtBar(b: Branch, post: Text, atStart: bool, cur: GrainSet)
    requires OkBranch(b) && RegularBranch(b) && At(post, 0) == '|'
    ensures !Scan(PBranch(b) + post, atStart, cur).ok
  {
    hide ReadGrain, ReadDisjunction, WildcardLen, ReadKleene, Update, FindInGroup, WildAtom, GrainOf, PItem, PAtom, PQuant, Mandatory;
    var r := PBranch(b) + post;
    match b
    case Nil =>
      assert r == post;
      NothingAtClose(post);
      BarOpensNothing(post);
    case Cons(i, t) =>
      var rest := PBranch(t) + post;
      assert r == PItem(i) + rest;
      GrainText(b, post);
      var g := ReadGrain(r);
      if g.len > 0 {
        var l := LeadingLiterals(b);
        LiteralsShrink(b);
        ScanStopsAtBar(l.rest, post, false, Update(cur, [g.text], atStart, g.len == |r|));
      } else {
        BranchStart(t, post);
        ItemStep(i, rest);
        WildcardItem(i, rest);
        Split(PItem(i), rest);
        match FindInGroup(i.atom)
        case TreeComplete(gs, s, e) =>
          ScanGroup(r, i, rest, gs, s, e, atStart, cur);
          ScanStopsAtBar(t, post, false, if Mandatory(i.q) then Update(cur, gs, atStart && s, rest == [] && i.q == Once && e) else cur);
        case TreeFailed =>
          ScanStopsAtBar(t, post, false, cur);
      }
  }

  lemma BarOpensNothing(r: Text)
    requires At(r, 0) == '|'
    ensures ReadDisjunction(r, false) == Failed
  {
  }

  /** Analysing the text of a tree gives what the tree says. */
  lemma AnalyseText(a: Alts)
    requires OkAlts(a) && Regular(a)
    ensures Analyse(PAlts(a)).ok == AnalyseTree(a).ok
    ensures Analyse(PAlts(a)).ok ==> Analyse(PAlts(a)) == AnalyseTree(a)
  {
    hide Alternatives, Scan, Update, FindInAlts, ScanBranch, PBranch, OkBranch, RegularBranch;
    var r := PAlts(a);
    assert r + [] == r;
    AlternativesText(a, [], true, [], true, true);
    match a
    case Last(b) =>
      BranchStartsOpen(b, []);
      FirstBranchMissing(a);
      ScanText(b, true, EmptySet);
    case Or(b, more) =>
      var bar := ['|'] + PAlts(more);
      assert r == PBranch(b) + bar;
      BranchStartsOpen(b, bar);
      FirstBranchMissing(a);
      ScanStopsAtBar(b, bar, true, EmptySet);
  }

  lemma FirstBranchMissing(a: Alts)
    ensures FindInBranch(match a case Last(b) => b case Or(b, _) => b) == TreeMissing ==>
            FindInAlts(a, [], true, true) == TreeFailed
  {
  }
}
