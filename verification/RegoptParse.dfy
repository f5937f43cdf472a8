/** The scanners of cl/regopt.c, run on the text of a regex tree, follow the tree: each stops
    exactly between two items.  The exception is a set that starts with `[^]`. */
module RegoptParse {
  import opened RegexSyntax
  import opened RegoptReaders

  // ----- what each reader does, said about the tree

  predicate ReadableElem(e: Elem)
  {
    match e
    case Dot => true
    case Escape(_) => true
    case Set(_, lead, body) => !lead && forall k :: 0 <= k < |body| ==> SimpleMember(body[k])
    case Foreign(_) => false
  }

  /** read_wildcard accepts the item. */
  predicate WildAtom(a: Atom)
  {
    match a
    case Lit(_) => true
    case EscLit(_) => false
    case Any(e) => ReadableElem(e)
    case Group(_, alts) => WildAlts(alts)
  }

  predicate WildBranch(b: Branch)
  {
    match b case Nil => true case Cons(i, t) => WildAtom(i.atom) && WildBranch(t)
  }

  predicate WildAlts(a: Alts)
  {
    match a case Last(b) => WildBranch(b) case Or(b, more) => WildBranch(b) && WildAlts(more)
  }

  /** No set starts with `[^]`, which read_matchall takes for a complete set. */
  predicate RegularAtom(a: Atom)
  {
    match a
    case Any(e) => !(e.Set? && e.negated && e.leadingBracket)
    case Group(_, alts) => Regular(alts)
    case _ => true
  }

  predicate RegularBranch(b: Branch)
  {
    match b case Nil => true case Cons(i, t) => RegularAtom(i.atom) && RegularBranch(t)
  }

  predicate Regular(a: Alts)
  {
    match a case Last(b) => RegularBranch(b) case Or(b, more) => RegularBranch(b) && Regular(more)
  }

  predicate Mandatory(q: Quant)
  {
    match q
    case Once => true
    case Opt => false
    case Star => false
    case Plus => true
    case Braces(body) => '1' <= At(body, 0) <= '9'
  }

  // ----- elements

  lemma {:induction false} RunAppend(p: char -> bool, a: Text, b: Text)
    requires All(p, a) && !p(At(b, 0))
    ensures Run(p, a + b) == |a|
  {
    if a == [] {
      assert a + b == b;
    } else {
      assert (a + b)[1..] == a[1..] + b;
      RunAppend(p, a[1..], b);
    }
  }

  lemma BracedText(p: char -> bool, t: Text, post: Text)
    requires |t| >= 4 && t[|t| - 1] == '}' && All(p, t[3..|t| - 1]) && !p('}')
    ensures BracedLen(p, t + post) == |t|
  {
    var body, rest := t[3..|t| - 1], ['}'] + post;
    assert (t + post)[3..] == body + rest;
    RunAppend(p, body, rest);
  }

  lemma EscapeText(t: Text, post: Text)
    requires OkEscape(t)
    ensures EscapeLen(t + post) == |t|
  {
    var r := t + post;
    assert At(r, 0) == t[0] && At(r, 1) == t[1];
    if |t| >= 3 {
      assert At(r, 2) == t[2];
    }
    if t[1] == 'x' && t[2] == '{' {
      BracedText(HexDigit, t, post);
    } else if (t[1] == 'p' || t[1] == 'P') && t[2] == '{' {
      BracedText(PropertyChar, t, post);
    }
  }

  lemma SimpleMemberText(t: Text, post: Text)
    requires SimpleMember(t)
    ensures MemberLen(t + post) == |t| >= 1
  {
    if |t| == 1 && SafeChar(t[0]) {
      assert (t + post)[0] == t[0];
    } else {
      EscapeText(t, post);
    }
  }

  lemma OtherMemberText(t: Text, post: Text)
    requires OtherMember(t)
    ensures MembersLen(t + post) == 0 && (t + post)[0] != ']'
  {
    assert (t + post)[0] == t[0];
    if t[0] == '\\' {
      assert (t + post)[1] == t[1];
    }
  }

  /** Reading set members stops at the closing bracket exactly when all are simple. */
  lemma {:induction false} MembersText(body: seq<Text>, post: Text)
    requires forall k :: 0 <= k < |body| ==> SimpleMember(body[k]) || OtherMember(body[k])
    requires At(post, 0) == ']'
    ensures var r := Concat(body) + post;
            if forall k :: 0 <= k < |body| ==> SimpleMember(body[k])
            then MembersLen(r) == |Concat(body)| else At(r, MembersLen(r)) != ']'
  {
    var r := Concat(body) + post;
    if body != [] {
      var rest := Concat(body[1..]) + post;
      assert r == body[0] + rest;
      if SimpleMember(body[0]) {
        SimpleMemberText(body[0], rest);
        MembersText(body[1..], post);
        assert r[|body[0]|..] == rest;
        assert forall k :: 1 <= k < |body| ==> body[k] == body[1..][k - 1];
      } else {
        OtherMemberText(body[0], rest);
      }
    }
  }

  lemma SetText(e: Elem, post: Text)
    requires e.Set? && OkSet(e) && !(e.negated && e.leadingBracket)
    ensures MatchallLen(PElem(e) + post) == if ReadableElem(e) then |PElem(e)| else 0
  {
    hide SimpleMember, OtherMember, MembersLen;
    var r := PElem(e) + post;
    assert r[0] == '[';
    if e.leadingBracket {
      assert r[1] == ']';
      BracketEndsMembers(r[1..]);
    } else {
      MemberStart(e.body[0]);
      PlainSetText(e.negated, e.body, post);
    }
  }

  lemma BracketEndsMembers(r: Text)
    requires At(r, 0) == ']'
    ensures MembersLen(r) == 0
  {
  }

  lemma PlainSetText(neg: bool, body: seq<Text>, post: Text)
    requires body != [] && forall k :: 0 <= k < |body| ==> SimpleMember(body[k]) || OtherMember(body[k])
    requires !neg ==> |body[0]| >= 1 && body[0][0] != '^'
    ensures var t := PElem(Set(neg, false, body));
            MatchallLen(t + post) == if forall k :: 0 <= k < |body| ==> SimpleMember(body[k]) then |t| else 0
  {
    hide *;
    var close := [']'] + post;
    var open: Text := if neg then ['[', '^'] else ['['];
    var members := Concat(body) + close;
    SetShape(neg, body, post);
    MembersStart(body, close);
    Split([']'], post);
    MembersText(body, close);
    SetOpening(neg, members);
    Split(Concat(body), close);
    BracketedMembers(open + members, |open|);
  }

  lemma MembersStart(body: seq<Text>, close: Text)
    requires body != [] && (SimpleMember(body[0]) || OtherMember(body[0]))
    ensures |body[0]| >= 1 && At(Concat(body) + close, 0) == body[0][0] != ']'
  {
    MemberStart(body[0]);
    assert Concat(body) == body[0] + Concat(body[1..]);
  }

  lemma SetOpening(neg: bool, members: Text)
    requires !neg ==> At(members, 0) != '^'
    ensures var open: Text := if neg then ['[', '^'] else ['['];
            var r := open + members;
            At(r, 0) == '[' && |open| == (if At(r, 1) == '^' then 2 else 1) && r[|open|..] == members &&
            forall k :: 0 <= k ==> At(r, |open| + k) == At(members, k)
  {
    var open: Text := if neg then ['[', '^'] else ['['];
    Split(open, members);
  }

  lemma SetShape(neg: bool, body: seq<Text>, post: Text)
    ensures PElem(Set(neg, false, body)) + post ==
            (if neg then ['[', '^'] else ['[']) + (Concat(body) + ([']'] + post))
    ensures |PElem(Set(neg, false, body))| == (if neg then 3 else 2) + |Concat(body)|
  {
    hide Concat;
    var c := Concat(body);
    var none: Text := [];
    if neg {
      assert ['['] + ['^'] + none == ['[', '^'];
      Assoc(['[', '^'] + c, [']'], post);
      Assoc(['[', '^'], c, [']'] + post);
    } else {
      assert ['['] + none + none == ['['];
      Assoc(['['] + c, [']'], post);
      Assoc(['['], c, [']'] + post);
    }
  }

  lemma BracketedMembers(r: Text, o: nat)
    requires At(r, 0) == '[' && o == if At(r, 1) == '^' then 2 else 1
    requires o <= |r|
    requires At(r[o..], 0) != ']'
    ensures MatchallLen(r) == var n := o + MembersLen(r[o..]); if At(r, n) == ']' then n + 1 else 0
  {
    hide MembersLen;
  }

  lemma MemberStart(t: Text)
    requires SimpleMember(t) || OtherMember(t)
    ensures |t| >= 1 && t[0] != ']'
  {
  }

  lemma ForeignText(t: Text, post: Text)
    requires OkForeign(t)
    ensures MatchallLen(t + post) == 0 && !Escaped(t + post)
    ensures OpenLen(t + post) > 0 ==> (t + post)[1] == '*' && OpenLen(t + post) == 1
  {
    var r := t + post;
    assert r[0] == t[0];
    if t[0] == '\\' {
      assert r[1] == t[1];
      if |t| >= 3 { assert r[2] == t[2]; }
    }
    if t[0] == '(' {
      assert r[1] == t[1] && r[2] == t[2];
    }
  }

  lemma StuckOpening(r: Text)
    requires MatchallLen(r) == 0
    requires OpenLen(r) > 0 ==> At(r, 1) == '*' && OpenLen(r) == 1
    ensures WildcardLen(r) == 0
  {
    if OpenLen(r) > 0 {
      var b := r[1..];
      assert b[0] == '*';
      assert MatchallLen(b) == 0 && OpenLen(b) == 0;
      assert WildcardLen(b) == 0 && BodyLen(b) == 0;
      assert At(r, 1) == '*';
    }
  }

  lemma ElemText(e: Elem, post: Text)
    requires OkElem(e) && RegularAtom(Any(e))
    ensures MatchallLen(PElem(e) + post) == if ReadableElem(e) then |PElem(e)| else 0
    ensures !SafeChar(At(PElem(e) + post, 0)) && !Escaped(PElem(e) + post)
    ensures WildcardLen(PElem(e) + post) > 0 ==> ReadableElem(e)
    ensures !ReadableElem(e) ==> OpenLen(PElem(e) + post) > 0 ==> At(PElem(e) + post, 1) == '*' && OpenLen(PElem(e) + post) == 1
  {
    var r := PElem(e) + post;
    match e
    case Dot =>
    case Escape(t) =>
      EscapeText(t, post);
      assert r[0] == t[0] && r[1] == t[1];
    case Set(_, _, _) =>
      SetText(e, post);
      assert r[0] == '[';
    case Foreign(t) =>
      ForeignText(t, post);
      assert r[0] == t[0];
      StuckOpening(r);
  }

  // ----- quantifiers

  lemma ModeText(m: Mode, post: Text)
    requires Follows(post)
    ensures ModeLen(PMode(m) + post) == |PMode(m)|
  {
    assert PMode(Greedy) + post == post;
  }

  /** What a reader sees after it has moved over `a`. */
  lemma Split(a: Text, b: Text)
    ensures (a + b)[|a|..] == b
    ensures forall k :: 0 <= k < |a| ==> At(a + b, k) == a[k]
    ensures forall k :: 0 <= k ==> At(a + b, |a| + k) == At(b, k)
  {
  }

  lemma BracesText(body: Text, tail: Text)
    requires All(DigitOrComma, body)
    ensures var r := ['{'] + (body + (['}'] + tail));
            ReadKleene(r) == Kleene(|body| + 2 + ModeLen(tail), Mandatory(Braces(body)))
  {
    var close := ['}'] + tail;
    var r := ['{'] + (body + close);
    RunAppend(DigitOrComma, body, close);
    Split(['{'], body + close);
    Split(body, close);
    Split(['{'] + body, close);
    assert ['{'] + body + close == r;
    var n := 1 + |body|;
    assert At(r, n) == '}';
    assert r[n + 1..] == tail;
    assert At(r, 1) == At(body + close, 0);
  }

  lemma SymbolText(c: Char, m: Mode, post: Text)
    requires c in {'?', '*', '+'} && Follows(post)
    ensures ReadKleene([c] + PMode(m) + post) == Kleene(1 + |PMode(m)|, c == '+')
  {
    var r := [c] + PMode(m) + post;
    ModeText(m, post);
    assert r[1..] == PMode(m) + post;
  }

  lemma NoQuantifier(post: Text)
    requires Follows(post)
    ensures ReadKleene([] + post).len == 0
  {
    assert [] + post == post;
  }

  lemma Assoc(a: Text, b: Text, c: Text)
    ensures a + b + c == a + (b + c)
  {
  }

  lemma KleeneText(q: Quant, m: Mode, post: Text)
    requires OkQuant(q, m) && Follows(post)
    ensures ReadKleene(PQuant(q, m) + post).len == |PQuant(q, m)|
    ensures q != Once ==> |PQuant(q, m)| > 0 && ReadKleene(PQuant(q, m) + post).oneOrMore == Mandatory(q)
  {
    hide ReadKleene, ModeLen;
    ModeText(m, post);
    match q
    case Once => NoQuantifier(post);
    case Braces(body) =>
      BracesText(body, PMode(m) + post);
      Assoc(['{'] + body + ['}'], PMode(m), post);
      Assoc(['{'] + body, ['}'], PMode(m) + post);
      Assoc(['{'], body, ['}'] + (PMode(m) + post));
    case Opt => SymbolText('?', m, post);
    case Star => SymbolText('*', m, post);
    case Plus => SymbolText('+', m, post);
  }

  // ----- wildcards

  lemma {:induction false} WildcardItem(i: Item, post: Text)
    requires OkItem(i) && RegularAtom(i.atom) && Follows(post)
    ensures WildcardLen(PItem(i) + post) == if WildAtom(i.atom) then |PItem(i)| else 0
    decreases i, 0
  {
    var tail := PQuant(i.q, i.mode) + post;
    assert PItem(i) + post == PAtom(i.atom) + tail;
    KleeneText(i.q, i.mode, post);
    WildcardAtom(i.atom, tail);
  }

  lemma {:induction false} WildcardAtom(a: Atom, tail: Text)
    requires OkAtom(a) && RegularAtom(a)
    ensures WildcardLen(PAtom(a) + tail) == if WildAtom(a) then |PAtom(a)| + ReadKleene(tail).len else 0
    decreases a, 4
  {
    var r := PAtom(a) + tail;
    Split(PAtom(a), tail);
    match a
    case Lit(c) =>
      assert MatchallLen(r) == 1;
    case EscLit(c) =>
      assert At(r, 0) == '\\' && At(r, 1) == c;
      assert MatchallLen(r) == 0;
    case Any(e) =>
      ElemText(e, tail);
    case Group(cap, alts) =>
      GroupText(cap, alts, tail);
  }

  /** The body of a group is read up to its `)` exactly when all of it is wildcards. */
  lemma {:induction false} GroupText(cap: bool, alts: Alts, tail: Text)
    requires OkAlts(alts) && Regular(alts)
    ensures WildcardLen(PAtom(Group(cap, alts)) + tail) ==
            if WildAlts(alts) then |PAtom(Group(cap, alts))| + ReadKleene(tail).len else 0
    decreases alts, 3
  {
    var close := [')'] + tail;
    var open, inner := POpen(cap), PAlts(alts) + close;
    var r := PAtom(Group(cap, alts)) + tail;
    assert r == open + inner;
    AltsStart(alts, close);
    Opening(cap, inner);
    BodyAlts(alts, close);
    Split(open, inner);
    Split(PAlts(alts), close);
    Split([')'], tail);
    Enclosed(r, |open|, BodyLen(inner), tail);
  }

  lemma Opening(cap: bool, inner: Text)
    requires Follows(inner)
    ensures OpenLen(POpen(cap) + inner) == |POpen(cap)|
    ensures MatchallLen(POpen(cap) + inner) == 0
    ensures !SafeChar(At(POpen(cap) + inner, 0)) && !Escaped(POpen(cap) + inner)
  {
    var r := POpen(cap) + inner;
    Split(POpen(cap), inner);
    assert At(r, 0) == '(';
    if cap { assert At(r, 1) == At(inner, 0); } else { assert At(r, 1) == '?' && At(r, 2) == ':'; }
  }

  lemma Enclosed(r: Text, o: nat, b: nat, tail: Text)
    requires MatchallLen(r) == 0 && OpenLen(r) == o > 0
    requires BodyLen(r[o..]) == b
    requires At(r, o + b) == ')' ==> r[o + b + 1..] == tail
    ensures WildcardLen(r) == if At(r, o + b) == ')' then o + b + 1 + ReadKleene(tail).len else 0
  {
    hide MatchallLen, OpenLen, BodyLen, ReadKleene;
  }

  /** After `(`, a group's text does not continue with `?`. */
  lemma AltsStart(alts: Alts, close: Text)
    requires OkAlts(alts) && Closes(close) && close != []
    ensures Follows(PAlts(alts) + close)
  {
    match alts
    case Last(b) => BranchStart(b, close);
    case Or(b, more) =>
      var rest := ['|'] + PAlts(more) + close;
      assert PAlts(alts) + close == PBranch(b) + rest;
      BranchStart(b, rest);
  }

  lemma {:induction false} BodyBranch(b: Branch, post: Text)
    requires OkBranch(b) && RegularBranch(b) && Closes(post) && post != []
    ensures var r := PBranch(b) + post;
            if WildBranch(b) then BodyLen(r) == |PBranch(b)| + BodyLen(post)
            else At(r, BodyLen(r)) != ')'
    decreases b, 1
  {
    hide WildcardLen, SafeChar;
    var r := PBranch(b) + post;
    match b
    case Nil =>
      assert r == post;
    case Cons(i, t) =>
      var rest := PBranch(t) + post;
      assert r == PItem(i) + rest;
      Split(PItem(i), rest);
      BranchStart(t, post);
      BranchStart(b, post);
      WildcardItem(i, rest);
      BodyBranch(t, post);
      AtomStart(i.atom);
  }

  lemma {:induction false} BodyAlts(a: Alts, post: Text)
    requires OkAlts(a) && Regular(a) && At(post, 0) == ')'
    ensures var r := PAlts(a) + post;
            if WildAlts(a) then BodyLen(r) == |PAlts(a)| else At(r, BodyLen(r)) != ')'
    decreases a, 2
  {
    var r := PAlts(a) + post;
    hide WildcardLen, SafeChar, OkBranch, RegularBranch, WildBranch, PBranch;
    match a
    case Last(b) =>
      BodyBranch(b, post);
      CloseEndsBody(post);
    case Or(b, more) =>
      var rest := PAlts(more) + post;
      var bar := ['|'] + rest;
      assert r == PBranch(b) + bar;
      BodyBranch(b, bar);
      BodyAlts(more, post);
      Split(PBranch(b), bar);
      Split(['|'], rest);
      BarContinues(bar);
  }

  lemma CloseEndsBody(r: Text)
    requires At(r, 0) == ')'
    ensures BodyLen(r) == 0
  {
  }

  lemma BarContinues(r: Text)
    requires At(r, 0) == '|'
    ensures BodyLen(r) == 1 + BodyLen(r[1..])
  {
  }
}
