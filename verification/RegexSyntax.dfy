/** Reference syntax and semantics of the regular expressions that the CL hands to its engine.
    A regex is a tree; `PAlts` writes it as the text that cl_regopt_analyse scans, and `InAlts`
    is its full-match language.  Nothing here follows the optimiser's scanner. */
module RegexSyntax {

  /** A byte of a C string: 8-bit, never NUL. */
  type Char = c: char | 0 < c as int < 256 witness 'a'
  type Text = seq<Char>

  /** `*point`: the terminating NUL is what a pointer at the end of the text reads. */
  function At(r: Text, k: nat): char
  {
    if k < |r| then r[k] else '\0'
  }

  predicate AsciiAlnum(c: char)
  {
    'A' <= c <= 'Z' || 'a' <= c <= 'z' || '0' <= c <= '9'
  }

  predicate SafeChar(c: char)
  {
    AsciiAlnum(c) || c as int >= 128 ||
    c in {'!', '"', '#', '%', '&', '\'', ',', '-', '/', ':', ';', '<', '=', '>', '@', '_', '`', '~'}
  }

  predicate AsciiPunct(c: char)
  {
    c in {'!', '"', '#', '$', '%', '&', '(', '\'', ')', '*', '+', ',', '-', '.', '/', ':', ';', '<',
          '=', '>', '?', '@', '[', '\\', ']', '^', '_', '`', '{', '|', '}', '~'}
  }

  predicate HexDigit(c: char)
  {
    'A' <= c <= 'F' || 'a' <= c <= 'f' || '0' <= c <= '9'
  }

  predicate PropertyChar(c: char)
  {
    AsciiAlnum(c) || c == '_' || c == '&'
  }

  predicate All(p: char -> bool, t: Text)
  {
    forall k :: 0 <= k < |t| ==> p(t[k])
  }

  // ----- trees

  datatype Mode = Greedy | Lazy | Possessive

  datatype Quant = Once | Opt | Star | Plus | Braces(body: Text)

  /** An element that matches what the engine says it matches: `.`, an escape sequence, a
      character set, or a construct foreign to the optimiser's subset. */
  datatype Elem =
    | Dot
    | Escape(text: Text)
    | Set(negated: bool, leadingBracket: bool, body: seq<Text>)
    | Foreign(text: Text)

  datatype Atom =
    | Lit(c: Char)
    | EscLit(c: Char)
    | Any(e: Elem)
    | Group(capturing: bool, alts: Alts)

  datatype Item = Item(atom: Atom, q: Quant, mode: Mode)
  datatype Branch = Nil | Cons(head: Item, tail: Branch)
  datatype Alts = Last(b: Branch) | Or(b: Branch, more: Alts)

  // ----- writing a tree as text

  function PMode(m: Mode): Text
  {
    match m case Greedy => [] case Lazy => ['?'] case Possessive => ['+']
  }

  function PQuant(q: Quant, m: Mode): Text
  {
    match q
    case Once => []
    case Opt => ['?'] + PMode(m)
    case Star => ['*'] + PMode(m)
    case Plus => ['+'] + PMode(m)
    case Braces(body) => ['{'] + body + ['}'] + PMode(m)
  }

  function Concat(ts: seq<Text>): Text
  {
    if ts == [] then [] else ts[0] + Concat(ts[1..])
  }

  function PElem(e: Elem): Text
  {
    match e
    case Dot => ['.']
    case Escape(t) => t
    case Set(neg, lead, body) =>
      ['['] + (if neg then ['^'] else []) + (if lead then [']'] else []) + Concat(body) + [']']
    case Foreign(t) => t
  }

  function POpen(capturing: bool): Text
  {
    if capturing then ['('] else ['(', '?', ':']
  }

  function PAtom(a: Atom): Text
  {
    match a
    case Lit(c) => [c]
    case EscLit(c) => ['\\', c]
    case Any(e) => PElem(e)
    case Group(cap, alts) => POpen(cap) + PAlts(alts) + [')']
  }

  function PItem(i: Item): Text
  {
    PAtom(i.atom) + PQuant(i.q, i.mode)
  }

  function PBranch(b: Branch): Text
  {
    match b case Nil => [] case Cons(i, t) => PItem(i) + PBranch(t)
  }

  function PAlts(a: Alts): Text
  {
    match a case Last(b) => PBranch(b) case Or(b, more) => PBranch(b) + ['|'] + PAlts(more)
  }

  // ----- well-formed trees: those whose text the engine reads back as the tree

  predicate DigitOrComma(c: char)
  {
    '0' <= c <= '9' || c == ','
  }

  function Number(digits: Text): nat
  {
    if digits == [] then 0
    else var d := digits[|digits| - 1] as int - '0' as int;
         10 * Number(digits[..|digits| - 1]) + if d > 0 then d else 0
  }

  function CommaAt(body: Text): (k: nat)
    ensures k <= |body| && (k < |body| ==> body[k] == ',')
    ensures forall j :: 0 <= j < k ==> body[j] != ','
  {
    if body == [] || body[0] == ',' then 0 else 1 + CommaAt(body[1..])
  }

  /** The brace texts that PCRE 8 takes for quantifiers: `{n}`, `{n,}` and `{n,m}`.  Any other, such
      as `{}`, `{,m}` or `{1,2,3}`, is literal text, whatever read_kleene takes it for. */
  predicate IsRepeat(body: Text)
  {
    var k := CommaAt(body);
    k > 0 && (k < |body| ==> CommaAt(body[k + 1..]) == |body| - k - 1)
  }

  predicate LiteralBraces(q: Quant)
  {
    q.Braces? && !IsRepeat(q.body)
  }

  predicate OkQuant(q: Quant, m: Mode)
  {
    match q
    case Once => m == Greedy
    case Braces(body) =>
      All(DigitOrComma, body) &&
      var k := CommaAt(body);
      (IsRepeat(body) && k + 1 < |body| ==> Number(body[..k]) <= Number(body[k + 1..]))
    case _ => true
  }

  /** The escape sequences of the documented subset, as the engine defines them. */
  predicate OkEscape(t: Text)
  {
    |t| >= 2 && t[0] == '\\' &&
    match t[1]
    case 'x' => (|t| == 4 && HexDigit(t[2]) && HexDigit(t[3])) ||
                (|t| >= 4 && t[2] == '{' && t[|t| - 1] == '}' && All(HexDigit, t[3..|t| - 1]))
    case 'p' => OkProperty(t)
    case 'P' => OkProperty(t)
    case c => c in {'w', 'W', 'd', 'D', 's', 'S', 'X'} && |t| == 2
  }

  predicate OkProperty(t: Text)
    requires |t| >= 2
  {
    (|t| == 3 && 'A' <= t[2] <= 'Z') ||
    (|t| >= 4 && t[2] == '{' && t[|t| - 1] == '}' && All(PropertyChar, t[3..|t| - 1]))
  }

  /** A set member the documented subset covers ... */
  predicate SimpleMember(t: Text)
  {
    (|t| == 1 && SafeChar(t[0])) || OkEscape(t)
  }

  /** ... and any other member: a blank, `^`, `[:alpha:]`, an escaped punctuation mark, ... */
  predicate OtherMember(t: Text)
  {
    |t| >= 1 && !SafeChar(t[0]) && t[0] != ']' && (t[0] == '\\' ==> |t| >= 2 && OtherEscaped(t[1]))
  }

  /** Characters that do not make a backslash start one of the subset's escape sequences. */
  predicate OtherEscaped(c: char)
  {
    c !in {'x', 'o', 'w', 'W', 'd', 'D', 's', 'S', 'X', 'p', 'P'}
  }

  predicate OkSet(e: Elem)
    requires e.Set?
  {
    (e.leadingBracket || e.body != []) &&
    (forall k :: 0 <= k < |e.body| ==> SimpleMember(e.body[k]) || OtherMember(e.body[k])) &&
    (!e.negated && !e.leadingBracket ==> e.body[0][0] != '^')
  }

  /** Engine syntax outside the subset: bare unsafe characters and anchors, other escapes,
      `\o{...}`, look-around, modifiers, named groups, comments and verbs. */
  predicate OkForeign(t: Text)
  {
    |t| >= 1 && !SafeChar(t[0]) &&
    t[0] !in {'.', '[', ')', '|', '*', '+', '?', '{'} &&
    (t[0] == '\\' ==> |t| >= 2 && !AsciiPunct(t[1]) &&
                      (OtherEscaped(t[1]) || (t[1] == 'o' && |t| >= 3 && t[2] == '{'))) &&
    (t[0] == '(' ==> |t| >= 3 && ((t[1] == '?' && t[2] != ':') || t[1] == '*'))
  }

  predicate OkElem(e: Elem)
  {
    match e
    case Dot => true
    case Escape(t) => OkEscape(t)
    case Set(_, _, _) => OkSet(e)
    case Foreign(t) => OkForeign(t)
  }

  predicate OkAtom(a: Atom)
  {
    match a
    case Lit(c) => SafeChar(c)
    case EscLit(c) => AsciiPunct(c)
    case Any(e) => OkElem(e)
    case Group(_, alts) => OkAlts(alts)
  }

  predicate OkItem(i: Item)
  {
    OkAtom(i.atom) && OkQuant(i.q, i.mode)
  }

  predicate OkBranch(b: Branch)
  {
    match b case Nil => true case Cons(i, t) => OkItem(i) && OkBranch(t)
  }

  predicate OkAlts(a: Alts)
  {
    match a case Last(b) => OkBranch(b) case Or(b, more) => OkBranch(b) && OkAlts(more)
  }

  // ----- the full-match language

  /** What a non-literal element matches is the engine's business: `lang(text, s)`. */
  type Lang = (Text, Text) -> bool

  /** The repetition counts a quantifier admits.  In literal braces the mode character is the
      quantifier of the closing brace. */
  predicate CountOk(q: Quant, m: Mode, n: nat)
  {
    match q
    case Once => n == 1
    case Opt => n <= 1
    case Star => true
    case Plus => n >= 1
    case Braces(body) =>
      var k := CommaAt(body);
      if !IsRepeat(body) then (match m case Greedy => n == 1 case Lazy => n <= 1 case Possessive => n >= 1)
      else if k == |body| then n == Number(body)
      else Number(body[..k]) <= n && (k + 1 == |body| || n <= Number(body[k + 1..]))
  }

  function Repeat(c: Char, n: nat): (t: Text)
    ensures |t| == n && forall k :: 0 <= k < n ==> t[k] == c
  {
    if n == 0 then [] else [c] + Repeat(c, n - 1)
  }

  /** What literal braces match, with `n` closing braces. */
  function BraceText(body: Text, n: nat): Text
  {
    ['{'] + body + Repeat('}', n)
  }

  ghost predicate InAtom(lang: Lang, a: Atom, s: Text)
    decreases a, 0, 0
  {
    match a
    case Lit(c) => s == [c]
    case EscLit(c) => s == [c]
    case Any(e) => lang(PElem(e), s)
    case Group(_, alts) => InAlts(lang, alts, s)
  }

  ghost predicate InPower(lang: Lang, a: Atom, n: nat, s: Text)
    decreases a, 1, n
  {
    if n == 0 then s == []
    else exists j :: 0 <= j <= |s| && InAtom(lang, a, s[..j]) && InPower(lang, a, n - 1, s[j..])
  }

  ghost predicate InItem(lang: Lang, i: Item, s: Text)
    decreases i, 2, 0
  {
    exists n: nat :: CountOk(i.q, i.mode, n) && InCount(lang, i, n, s)
  }

  ghost predicate InCount(lang: Lang, i: Item, n: nat, s: Text)
    decreases i, 1, n + 1
  {
    if LiteralBraces(i.q) then
      exists j :: 0 <= j <= |s| && InAtom(lang, i.atom, s[..j]) && s[j..] == BraceText(i.q.body, n)
    else InPower(lang, i.atom, n, s)
  }

  ghost predicate InBranch(lang: Lang, b: Branch, s: Text)
    decreases b, 3, 0
  {
    match b
    case Nil => s == []
    case Cons(i, t) =>
      exists j :: 0 <= j <= |s| && InItem(lang, i, s[..j]) && InBranch(lang, t, s[j..])
  }

  ghost predicate InAlts(lang: Lang, a: Alts, s: Text)
    decreases a, 4, 0
  {
    match a
    case Last(b) => InBranch(lang, b, s)
    case Or(b, more) => InBranch(lang, b, s) || InAlts(lang, more, s)
  }

  // ----- how texts begin

  /** What may follow an item: nothing that would be read as (part of) its quantifier. */
  predicate Follows(post: Text)
  {
    At(post, 0) !in {'?', '*', '+', '{'}
  }

  /** What may follow a branch: the end, `|` or `)`. */
  predicate Closes(post: Text)
  {
    post == [] || post[0] == '|' || post[0] == ')'
  }

  lemma AtomStart(a: Atom)
    requires OkAtom(a)
    ensures |PAtom(a)| >= 1
    ensures PAtom(a)[0] !in {'?', '*', '+', '{', '|', ')'}
  {
    match a
    case Any(e) =>
    case _ =>
  }

  lemma BranchStart(b: Branch, post: Text)
    requires OkBranch(b) && Closes(post)
    ensures Follows(PBranch(b) + post)
    ensures b.Cons? ==> |PBranch(b)| >= 1 && !Closes(PBranch(b) + post)
  {
    if b.Cons? {
      AtomStart(b.head.atom);
      assert PBranch(b) == PItem(b.head) + PBranch(b.tail);
      assert PItem(b.head) == PAtom(b.head.atom) + PQuant(b.head.q, b.head.mode);
    }
  }
}
