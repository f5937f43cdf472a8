/** The scanners of cl/regopt.c.  Each `...Len` function says what its reader consumes from the
    front of the remaining text (0: the reader returns `mark`); each method is the reader itself,
    moving `point` through the whole text. */
module RegoptReaders {
  import opened RegexSyntax

  const MAX_GRAINS := 12

  // ----- specification

  lemma Drop(t: Text, i: nat, k: nat)
    requires i + k <= |t|
    ensures t[i..][k..] == t[i + k..]
  {
  }

  /** Length of the longest prefix whose characters satisfy `p`. */
  function Run(p: char -> bool, r: Text): (n: nat)
    ensures n <= |r| && All(p, r[..n]) && (n < |r| ==> !p(r[n]))
  {
    if r == [] || !p(r[0]) then 0
    else
      var n := Run(p, r[1..]);
      assert r[..n + 1] == [r[0]] + r[1..][..n];
      n + 1
  }

  predicate OctDigit(c: char)
  {
    '0' <= c <= '7'
  }

  /** `{` and `p`-characters up to a `}` from offset 3 on. */
  function BracedLen(p: char -> bool, r: Text): (n: nat)
    requires |r| >= 3
    ensures n <= |r|
  {
    var n := 3 + Run(p, r[3..]);
    if At(r, n) == '}' then n + 1 else 0
  }

  function EscapeLen(r: Text): (n: nat)
    ensures n <= |r|
  {
    if At(r, 0) != '\\' then 0
    else
      match At(r, 1)
      case 'x' =>
        if At(r, 2) == '{' then BracedLen(HexDigit, r)
        else if HexDigit(At(r, 2)) && HexDigit(At(r, 3)) then 4 else 0
      case 'o' => if At(r, 2) == 'o' then BracedLen(OctDigit, r) else 0
      case 'p' => PropertyLen(r)
      case 'P' => PropertyLen(r)
      case c => if c in {'w', 'W', 'd', 'D', 's', 'S', 'X'} then 2 else 0
  }

  function PropertyLen(r: Text): (n: nat)
    requires |r| >= 2
    ensures n <= |r|
  {
    if 'A' <= At(r, 2) <= 'Z' then 3
    else if At(r, 2) == '{' then BracedLen(PropertyChar, r) else 0
  }

  function MemberLen(r: Text): (n: nat)
    ensures n <= |r|
  {
    if SafeChar(At(r, 0)) then 1 else EscapeLen(r)
  }

  /** Length of the run of set members. */
  function MembersLen(r: Text): (n: nat)
    ensures n <= |r|
  {
    var n := MemberLen(r);
    if n == 0 then 0 else n + MembersLen(r[n..])
  }

  function MatchallLen(r: Text): (n: nat)
    ensures n <= |r|
  {
    if At(r, 0) == '.' || SafeChar(At(r, 0)) then 1
    else if At(r, 0) == '\\' then EscapeLen(r)
    else if At(r, 0) == '[' then
      var o := if At(r, 1) == '^' then 2 else 1;
      var n := o + MembersLen(r[o..]);
      if At(r, n) == ']' && n > 1 then n + 1 else 0
    else 0
  }

  datatype Kleene = Kleene(len: nat, oneOrMore: bool)

  function ModeLen(r: Text): (n: nat)
    ensures n <= |r|
  {
    if At(r, 0) == '?' || At(r, 0) == '+' then 1 else 0
  }

  /** `len == 0` means no quantifier; `oneOrMore` then has no meaning. */
  function ReadKleene(r: Text): (k: Kleene)
    ensures k.len <= |r|
  {
    match At(r, 0)
    case '?' => Kleene(1 + ModeLen(r[1..]), false)
    case '*' => Kleene(1 + ModeLen(r[1..]), false)
    case '+' => Kleene(1 + ModeLen(r[1..]), true)
    case '{' =>
      var n := 1 + Run(DigitOrComma, r[1..]);
      if At(r, n) != '}' then Kleene(0, false)
      else Kleene(n + 1 + ModeLen(r[n + 1..]), '1' <= At(r, 1) <= '9')
    case _ => Kleene(0, false)
  }

  /** Length of a group opening this parser supports, `(` or `(?:`. */
  function OpenLen(r: Text): (n: nat)
    ensures n <= |r|
  {
    if At(r, 0) != '(' then 0
    else if At(r, 1) != '?' then 1
    else if At(r, 2) == ':' then 3 else 0
  }

  function WildcardLen(r: Text): (n: nat)
    ensures n <= |r|
    decreases |r|, 0
  {
    var m := MatchallLen(r);
    if m > 0 then m + ReadKleene(r[m..]).len
    else
      var o := OpenLen(r);
      if o == 0 then 0
      else
        var b := o + BodyLen(r[o..]);
        if At(r, b) == ')' then b + 1 + ReadKleene(r[b + 1..]).len else 0
  }

  /** Wildcard segments and `|` inside a group. */
  function BodyLen(r: Text): (n: nat)
    ensures n <= |r|
    decreases |r|, 1
  {
    var w := WildcardLen(r);
    if w > 0 then w + BodyLen(r[w..])
    else if At(r, 0) == '|' then 1 + BodyLen(r[1..]) else 0
  }

  predicate Escaped(r: Text)
  {
    At(r, 0) == '\\' && AsciiPunct(At(r, 1))
  }

  datatype Grain = Grain(len: nat, text: Text)

  /** The longest run of literal symbols, and the run unescaped. */
  function Literals(r: Text): (g: Grain)
    ensures g.len <= |r| && |g.text| <= g.len && (g.len > 0 ==> g.text != [])
  {
    if SafeChar(At(r, 0)) then
      var g := Literals(r[1..]);
      Grain(1 + g.len, [r[0]] + g.text)
    else if Escaped(r) then
      var g := Literals(r[2..]);
      Grain(2 + g.len, [r[1]] + g.text)
    else Grain(0, [])
  }

  function ReadGrain(r: Text): (g: Grain)
    ensures g.len <= |r| && (g.len > 0 <==> g.text != [])
  {
    var w := Literals(r);
    if w.text == [] then Grain(0, [])
    else
      var k := ReadKleene(r[w.len..]);
      var g := if k.len > 0 && !k.oneOrMore then w.text[..|w.text| - 1] else w.text;
      if g == [] then Grain(0, []) else Grain(w.len + k.len, g)
  }

  /** Skip wildcards until a grain starts; `None` if neither can be read. */
  datatype Found = Missing | Found(skip: nat, grain: Grain)

  function FindGrain(r: Text): (f: Found)
    ensures f.Found? ==> f.skip + f.grain.len <= |r| && f.grain.len > 0
  {
    var g := ReadGrain(r);
    if g.len > 0 then Found(0, g)
    else
      var w := WildcardLen(r);
      if w == 0 then Missing
      else
        match FindGrain(r[w..])
        case Missing => Missing
        case Found(skip, grain) => Found(w + skip, grain)
  }

  /** Wildcards skipped up to the next `|` or `)`. */
  function TailLen(r: Text): (n: nat)
    ensures n <= |r|
  {
    if At(r, 0) == '|' || At(r, 0) == ')' then 0
    else
      var w := WildcardLen(r);
      if w == 0 then 0 else w + TailLen(r[w..])
  }

  datatype Disjunction =
    | Failed
    | Complete(len: nat, grains: seq<Text>, alignStart: bool, alignEnd: bool)

  /** The alternatives from here on, after `grains` were found in the earlier ones. */
  function Alternatives(r: Text, bare: bool, grains: seq<Text>, alignStart: bool, alignEnd: bool): (d: Disjunction)
    ensures d.Complete? ==> d.len <= |r| + 1 && (!bare ==> d.len <= |r|)
  {
    match FindGrain(r)
    case Missing => Failed
    case Found(skip, g) =>
      var i := skip + g.len;
      var t := TailLen(r[i..]);
      var j := i + t;
      var grains' := grains + [g.text];
      if |grains'| >= MAX_GRAINS then Failed
      else if At(r, j) == '|' then
        match Alternatives(r[j + 1..], bare, grains', alignStart && skip == 0, alignEnd && t == 0)
        case Failed => Failed
        case Complete(len, gs, s, e) => Complete(j + 1 + len, gs, s, e)
      else if (if bare then j == |r| else At(r, j) == ')') then
        Complete(j + 1, grains', alignStart && skip == 0, alignEnd && t == 0)
      else Failed
  }

  function ReadDisjunction(r: Text, bare: bool): (d: Disjunction)
    ensures d.Complete? ==> d.len <= |r| + 1 && (!bare ==> 0 < d.len <= |r|)
  {
    if bare then
      if At(r, 0) == '(' then Failed else Alternatives(r, true, [], true, true)
    else
      var o := OpenLen(r);
      if o == 0 then Failed
      else
        match Alternatives(r[o..], false, [], true, true)
        case Failed => Failed
        case Complete(len, gs, s, e) => Complete(o + len, gs, s, e)
  }

  /** The public grain set; `len` is the length of its shortest grain, 0 when it is empty. */
  datatype GrainSet = GrainSet(grains: seq<Text>, len: nat, anchorStart: bool, anchorEnd: bool)

  const EmptySet := GrainSet([], 0, false, false)

  function Shortest(gs: seq<Text>): (n: nat)
    requires gs != []
    ensures forall g :: g in gs ==> n <= |g|
    ensures exists g :: g in gs && n == |g|
  {
    if |gs| == 1 then assert gs[0] in gs; |gs[0]|
    else
      var n := Shortest(gs[1..]);
      assert forall g :: g in gs ==> g == gs[0] || g in gs[1..];
      assert gs[0] in gs && forall g :: g in gs[1..] ==> g in gs;
      if |gs[0]| < n then |gs[0]| else n
  }

  /** The heuristic of update_grain_buffer. */
  predicate Better(cur: GrainSet, n: nat, len: nat)
  {
    len >= 2 &&
    (len > cur.len + 1 ||
     (len == cur.len + 1 && n <= 3 * |cur.grains|) ||
     (len == cur.len && n < |cur.grains|) ||
     (len == cur.len - 1 && 3 * n < |cur.grains|))
  }

  function Power3(n: nat): (p: nat)
    ensures p >= 1
  {
    if n == 0 then 1 else 3 * Power3(n - 1)
  }

  /** Each further character of the shortest grain is worth a factor of three in the number of grains:
      sets whose lengths differ by at most one are compared by number over worth, the longer one
      first; beyond that the longer set wins. */
  lemma WorthOfLength(cur: GrainSet, n: nat, len: nat)
    requires len >= 2
    ensures len > cur.len + 1 ==> Better(cur, n, len)
    ensures len + 1 < cur.len ==> !Better(cur, n, len)
    ensures cur.len - 1 <= len <= cur.len + 1 ==>
              (Better(cur, n, len) <==>
               n * Power3(cur.len) < |cur.grains| * Power3(len) ||
               (n * Power3(cur.len) == |cur.grains| * Power3(len) && len > cur.len))
  {
    hide Power3;
    var m := |cur.grains|;
    if len == cur.len + 1 {
      Tripled(cur.len);
      OneLonger(n, m, Power3(cur.len));
    } else if len == cur.len {
      Scaled(n, m, Power3(len));
    } else if len + 1 == cur.len {
      Tripled(len);
      OneLonger(m, n, Power3(len));
    }
  }

  lemma Tripled(n: nat)
    ensures Power3(n + 1) == 3 * Power3(n)
  {
  }

  lemma OneLonger(n: nat, m: nat, p: nat)
    requires p >= 1
    ensures n * p < m * (3 * p) <==> n < 3 * m
    ensures n * p == m * (3 * p) <==> n == 3 * m
  {
    assert m * (3 * p) == 3 * m * p;
    Scaled(n, 3 * m, p);
    Scaled(3 * m, n, p);
  }

  lemma {:induction false} Scaled(a: nat, b: nat, c: nat)
    requires c >= 1
    ensures a < b <==> a * c < b * c
  {
    if c > 1 {
      Scaled(a, b, c - 1);
      assert a * c == a * (c - 1) + a && b * c == b * (c - 1) + b;
    }
  }

  /** Two different sets are never each better than the other, and one of them always is, unless they
      agree in length and number. */
  lemma NoFlipFlop(a: GrainSet, b: GrainSet)
    requires a.len >= 2 && b.len >= 2
    ensures !(Better(a, |b.grains|, b.len) && Better(b, |a.grains|, a.len))
    ensures Better(a, |b.grains|, b.len) || Better(b, |a.grains|, a.len) <==> a.len != b.len || |a.grains| != |b.grains|
  {
  }

  function Update(cur: GrainSet, gs: seq<Text>, atStart: bool, atEnd: bool): GrainSet
  {
    if gs != [] && Better(cur, |gs|, Shortest(gs)) then GrainSet(gs, Shortest(gs), atStart, atEnd) else cur
  }

  datatype Outcome = Outcome(ok: bool, set_: GrainSet)

  /** The main loop of cl_regopt_analyse, with the text from `mark` on. */
  function Scan(r: Text, atStart: bool, cur: GrainSet): Outcome
  {
    if r == [] then Outcome(cur.grains != [], cur)
    else
      var g := ReadGrain(r);
      if g.len > 0 then
        Scan(r[g.len..], false, Update(cur, [g.text], atStart, g.len == |r|))
      else
        match ReadDisjunction(r, false)
        case Complete(len, gs, s, e) =>
          var k := ReadKleene(r[len..]);
          var cur' := if k.len == 0 || k.oneOrMore
                      then Update(cur, gs, atStart && s, len == |r| && e) else cur;
          Scan(r[len + k.len..], false, cur')
        case Failed =>
          var w := WildcardLen(r);
          if w > 0 then Scan(r[w..], false, cur) else Outcome(false, cur)
  }

  function Analyse(r: Text): Outcome
  {
    match ReadDisjunction(r, true)
    case Complete(_, gs, s, e) =>
      var set_ := Update(EmptySet, gs, s, e);
      Outcome(set_.grains != [], set_)
    case Failed => Scan(r, true, EmptySet)
  }

  // ----- one step of the recursive readers, for proofs that need no more

  lemma LiteralsUnfold(r: Text)
    ensures Literals(r) ==
            if SafeChar(At(r, 0)) then var g := Literals(r[1..]); Grain(1 + g.len, [r[0]] + g.text)
            else if Escaped(r) then var g := Literals(r[2..]); Grain(2 + g.len, [r[1]] + g.text)
            else Grain(0, [])
  {
    hide SafeChar, Escaped;
  }

  lemma AlternativesUnfold(r: Text, bare: bool, grains: seq<Text>, s: bool, e: bool)
    ensures Alternatives(r, bare, grains, s, e) ==
            match FindGrain(r)
            case Missing => Failed
            case Found(skip, g) =>
              var i := skip + g.len;
              var t := TailLen(r[i..]);
              var gs := grains + [g.text];
              if |gs| >= MAX_GRAINS then Failed
              else if At(r, i + t) == '|' then
                match Alternatives(r[i + t + 1..], bare, gs, s && skip == 0, e && t == 0)
                case Failed => Failed
                case Complete(len, gs', s', e') => Complete(i + t + 1 + len, gs', s', e')
              else if (if bare then i + t == |r| else At(r, i + t) == ')') then
                Complete(i + t + 1, gs, s && skip == 0, e && t == 0)
              else Failed
  {
    hide FindGrain, TailLen;
  }

  lemma ScanUnfold(r: Text, atStart: bool, cur: GrainSet)
    requires r != []
    ensures Scan(r, atStart, cur) ==
            var g := ReadGrain(r);
            if g.len > 0 then Scan(r[g.len..], false, Update(cur, [g.text], atStart, g.len == |r|))
            else
              match ReadDisjunction(r, false)
              case Complete(len, gs, s, e) =>
                var k := ReadKleene(r[len..]);
                var cur' := if k.len == 0 || k.oneOrMore
                            then Update(cur, gs, atStart && s, len == |r| && e) else cur;
                Scan(r[len + k.len..], false, cur')
              case Failed =>
                var w := WildcardLen(r);
                if w > 0 then Scan(r[w..], false, cur) else Outcome(false, cur)
  {
    hide ReadGrain, ReadDisjunction, ReadKleene, Update, WildcardLen;
  }

  lemma BodyUnfold(r: Text)
    ensures BodyLen(r) ==
            var w := WildcardLen(r);
            if w > 0 then w + BodyLen(r[w..]) else if At(r, 0) == '|' then 1 + BodyLen(r[1..]) else 0
  {
    hide WildcardLen;
  }
}
