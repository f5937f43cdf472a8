/** The optimiser of cl/regopt.c: pointer-advancing scanners over the regex text and the global
    grain buffers, proved to compute what RegoptReaders specifies. */
module Regopt {
  import opened RegexSyntax
  import opened RegoptReaders

  lemma AtHere(t: Text, i: nat, k: nat)
    requires i <= |t|
    ensures At(t[i..], k) == At(t, i + k)
  {
  }

  /** The `while` loops of the scanners that step over one kind of character. */
  method SkipRun(t: Text, start: nat, p: char -> bool) returns (point: nat)
    requires start <= |t| && !p('\0')
    ensures point == start + Run(p, t[start..])
  {
    point := start;
    while p(At(t, point))
      invariant start <= point <= |t|
      invariant point + Run(p, t[point..]) == start + Run(p, t[start..])
      decreases |t| - point
    {
      assert t[point..][1..] == t[point + 1..];
      point := point + 1;
    }
  }

  method ReadBraced(t: Text, mark: nat, p: char -> bool) returns (point: nat)
    requires mark + 3 <= |t| && !p('\0')
    ensures point == mark + BracedLen(p, t[mark..])
  {
    Drop(t, mark, 3);
    point := SkipRun(t, mark + 3, p);
    AtHere(t, mark, point - mark);
    if At(t, point) == '}' { return point + 1; }
    return mark;
  }

  method ReadEscapeSeq(t: Text, mark: nat) returns (point: nat)
    requires mark <= |t|
    ensures point == mark + EscapeLen(t[mark..])
  {
    hide SafeChar, BracedLen;
    forall k | 0 <= k < 4 ensures At(t[mark..], k) == At(t, mark + k) { AtHere(t, mark, k); }
    if At(t, mark) != '\\' { return mark; }
    match At(t, mark + 1)
    case 'x' =>
      if At(t, mark + 2) == '{' {
        point := ReadBraced(t, mark, HexDigit);
      } else {
        point := if HexDigit(At(t, mark + 2)) && HexDigit(At(t, mark + 3)) then mark + 4 else mark;
      }
    case 'o' =>
      if At(t, mark + 2) == 'o' {
        point := ReadBraced(t, mark, OctDigit);
      } else {
        point := mark;
      }
    case 'p' => point := ReadProperty(t, mark);
    case 'P' => point := ReadProperty(t, mark);
    case c => point := if c in {'w', 'W', 'd', 'D', 's', 'S', 'X'} then mark + 2 else mark;
  }

  method ReadProperty(t: Text, mark: nat) returns (point: nat)
    requires mark + 2 <= |t|
    ensures point == mark + PropertyLen(t[mark..])
  {
    AtHere(t, mark, 2);
    if 'A' <= At(t, mark + 2) <= 'Z' { return mark + 3; }
    if At(t, mark + 2) == '{' {
      point := ReadBraced(t, mark, PropertyChar);
    } else {
      point := mark;
    }
  }

  /** The loop of read_matchall over the members of a set. */
  method ReadMembers(t: Text, open: nat) returns (point: nat)
    requires open <= |t|
    ensures point == open + MembersLen(t[open..])
  {
    hide SafeChar, EscapeLen;
    point := open;
    while true
      invariant open <= point <= |t|
      invariant point + MembersLen(t[point..]) == open + MembersLen(t[open..])
      decreases |t| - point
    {
      AtHere(t, point, 0);
      if SafeChar(At(t, point)) {
        Drop(t, point, 1);
        point := point + 1;
      } else {
        var p2 := ReadEscapeSeq(t, point);
        if p2 == point { return; }
        Drop(t, point, p2 - point);
        point := p2;
      }
    }
  }

  method ReadMatchall(t: Text, mark: nat) returns (point: nat)
    requires mark <= |t|
    ensures point == mark + MatchallLen(t[mark..])
  {
    hide SafeChar, EscapeLen, MembersLen;
    AtHere(t, mark, 0);
    AtHere(t, mark, 1);
    point := mark;
    if At(t, mark) == '.' || SafeChar(At(t, mark)) {
      point := mark + 1;
    } else if At(t, mark) == '\\' {
      point := ReadEscapeSeq(t, mark);
    } else if At(t, mark) == '[' {
      point := mark + 1;
      if At(t, point) == '^' { point := point + 1; }
      Drop(t, mark, point - mark);
      point := ReadMembers(t, point);
      AtHere(t, mark, point - mark);
      if At(t, point) == ']' && point > mark + 1 { return point + 1; }
      return mark;
    }
  }

  method ReadKleeneOp(t: Text, mark: nat) returns (point: nat, oneOrMore: bool)
    requires mark <= |t|
    ensures var k := ReadKleene(t[mark..]);
            point == mark + k.len && (k.len > 0 ==> oneOrMore == k.oneOrMore)
  {
    point, oneOrMore := mark, false;
    var ok := true;
    AtHere(t, mark, 0);
    if At(t, mark) == '?' || At(t, mark) == '*' {
      point := point + 1;
    } else if At(t, mark) == '+' {
      oneOrMore := true;
      point := point + 1;
    } else if At(t, mark) == '{' {
      AtHere(t, mark, 1);
      Drop(t, mark, 1);
      oneOrMore := '1' <= At(t, mark + 1) <= '9';
      point := SkipRun(t, mark + 1, DigitOrComma);
      AtHere(t, mark, point - mark);
      if At(t, point) != '}' { ok := false; } else { point := point + 1; }
    } else {
      ok := false;
    }
    if !ok { return mark, oneOrMore; }
    AtHere(t, point, 0);
    Drop(t, mark, point - mark);
    if At(t, point) == '?' || At(t, point) == '+' { point := point + 1; }
  }

  method ReadWildcard(t: Text, mark: nat) returns (point: nat)
    requires mark <= |t|
    ensures point == mark + WildcardLen(t[mark..])
    decreases |t| - mark, 0
  {
    hide MatchallLen, ReadKleene, BodyLen;
    var ignored;
    point := ReadMatchall(t, mark);
    Drop(t, mark, point - mark);
    if point > mark {
      point, ignored := ReadKleeneOp(t, point);
      return;
    }
    AtHere(t, mark, 0);
    AtHere(t, mark, 1);
    AtHere(t, mark, 2);
    if At(t, mark) != '(' { return mark; }
    point := point + 1;
    if At(t, point) == '?' {
      if At(t, point + 1) == ':' { point := point + 2; } else { return mark; }
    }
    Drop(t, mark, point - mark);
    point := ReadBody(t, point);
    AtHere(t, mark, point - mark);
    if At(t, point) == ')' {
      Drop(t, mark, point + 1 - mark);
      point, ignored := ReadKleeneOp(t, point + 1);
    } else {
      point := mark;
    }
  }

  /** The loop of read_wildcard over the body of a group. */
  method ReadBody(t: Text, open: nat) returns (point: nat)
    requires open <= |t|
    ensures point == open + BodyLen(t[open..])
    decreases |t| - open, 1
  {
    hide WildcardLen, BodyLen;
    point := open;
    while true
      invariant open <= point <= |t|
      invariant point + BodyLen(t[point..]) == open + BodyLen(t[open..])
      decreases |t| - point
    {
      BodyUnfold(t[point..]);
      AtHere(t, point, 0);
      var p2 := ReadWildcard(t, point);
      if p2 > point {
        Drop(t, point, p2 - point);
        point := p2;
      } else if At(t, point) == '|' {
        Drop(t, point, 1);
        point := point + 1;
      } else {
        return;
      }
    }
  }

  /** The loop of read_grain that copies literal symbols to the grain buffer. */
  method ReadLiterals(t: Text, mark: nat) returns (point: nat, grain: Text)
    requires mark <= |t|
    ensures mark <= point && Literals(t[mark..]) == Grain(point - mark, grain)
  {
    hide SafeChar, AsciiPunct, Literals;
    point, grain := mark, [];
    while true
      invariant mark <= point <= |t|
      invariant Literals(t[mark..]).len == point - mark + Literals(t[point..]).len
      invariant Literals(t[mark..]).text == grain + Literals(t[point..]).text
      decreases |t| - point
    {
      NoPunctAtEnd();
      AtHere(t, point, 0);
      AtHere(t, point, 1);
      LiteralsUnfold(t[point..]);
      if SafeChar(At(t, point)) {
        Drop(t, point, 1);
        Moved(grain, t[point], Literals(t[point + 1..]).text);
        grain, point := grain + [t[point]], point + 1;
      } else if At(t, point) == '\\' && AsciiPunct(At(t, point + 1)) {
        Drop(t, point, 2);
        Moved(grain, t[point + 1], Literals(t[point + 2..]).text);
        grain, point := grain + [t[point + 1]], point + 2;
      } else {
        return;
      }
    }
  }

  lemma Moved(a: Text, c: Char, b: Text)
    ensures a + ([c] + b) == (a + [c]) + b
  {
  }

  method ReadGrainAt(t: Text, mark: nat) returns (point: nat, grain: Text)
    requires mark <= |t|
    ensures var g := ReadGrain(t[mark..]); point == mark + g.len && (point > mark ==> grain == g.text)
  {
    hide Literals, ReadKleene;
    point, grain := ReadLiterals(t, mark);
    if grain != [] {
      Drop(t, mark, point - mark);
      var end, oneOrMore := ReadKleeneOp(t, point);
      if end > point && !oneOrMore { grain := grain[..|grain| - 1]; }
      point := end;
    }
    if grain == [] { point := mark; }
  }

  lemma NoPunctAtEnd()
    ensures !AsciiPunct('\0') && !SafeChar('\0')
  {
  }

  /** The inner loop of read_disjunction that looks for the grain of an alternative. */
  method SkipToGrain(t: Text, mark: nat) returns (found: bool, skipped: bool, point: nat, grain: Text)
    requires mark <= |t|
    ensures match FindGrain(t[mark..])
            case Missing => !found
            case Found(skip, g) => found && point == mark + skip + g.len && grain == g.text && (skipped <==> skip > 0)
  {
    hide ReadGrain, WildcardLen;
    point, skipped := mark, false;
    var p2;
    p2, grain := ReadGrainAt(t, point);
    while p2 == point
      invariant mark <= point <= |t|
      invariant var g := ReadGrain(t[point..]); p2 == point + g.len && (g.len > 0 ==> grain == g.text)
      invariant skipped <==> point > mark
      invariant match FindGrain(t[point..])
                case Missing => FindGrain(t[mark..]) == Missing
                case Found(skip, g) => FindGrain(t[mark..]) == Found(point - mark + skip, g)
      decreases |t| - point
    {
      p2 := ReadWildcard(t, point);
      if p2 == point { return false, skipped, point, grain; }
      Drop(t, point, p2 - point);
      point, skipped := p2, true;
      p2, grain := ReadGrainAt(t, point);
    }
    return true, skipped, p2, grain;
  }

  /** The inner loop of read_disjunction that steps to the next `|` or `)`. */
  method SkipTail(t: Text, mark: nat) returns (point: nat)
    requires mark <= |t|
    ensures point == mark + TailLen(t[mark..])
  {
    hide WildcardLen;
    point := mark;
    while At(t, point) != '|' && At(t, point) != ')'
      invariant mark <= point <= |t|
      invariant point + TailLen(t[point..]) == mark + TailLen(t[mark..])
      decreases |t| - point
    {
      AtHere(t, point, 0);
      var p2 := ReadWildcard(t, point);
      if p2 == point { return; }
      Drop(t, point, p2 - point);
      point := p2;
    }
    AtHere(t, point, 0);
  }

  /** A disjunction read from a later position, as seen from `n` characters earlier. */
  function Shifted(d: Disjunction, n: nat): Disjunction
  {
    match d case Failed => Failed case Complete(len, gs, s, e) => Complete(n + len, gs, s, e)
  }

  lemma ShortestIs(gs: seq<Text>, n: nat, k: nat)
    requires k < |gs| && |gs[k]| == n && forall j :: 0 <= j < |gs| ==> n <= |gs[j]|
    ensures Shortest(gs) == n
  {
    assert gs[k] in gs;
  }

  method ShortestLength(gs: seq<Text>) returns (len: nat)
    requires gs != []
    ensures len == Shortest(gs)
  {
    len := |gs[0]|;
    ghost var k := 0;
    for i := 1 to |gs|
      invariant k < i && |gs[k]| == len
      invariant forall j :: 0 <= j < i ==> len <= |gs[j]|
    {
      if |gs[i]| < len {
        len := |gs[i]|;
        k := i;
      }
    }
    ShortestIs(gs, len, k);
  }

  lemma OneAlternative(t: Text, point: nat, p2: nat, p3: nat, bare: bool, gs: seq<Text>, s: bool, e: bool,
                       skipped: bool, grain: Text)
    requires point <= p2 <= |t|
    requires FindGrain(t[point..]).Found?
    requires var f := FindGrain(t[point..]);
             p2 == point + f.skip + f.grain.len && grain == f.grain.text && (skipped <==> f.skip > 0)
    requires p3 == p2 + TailLen(t[p2..])
    ensures var s', e', gs' := s && !skipped, e && p3 == p2, gs + [grain];
            p3 <= |t| &&
            Alternatives(t[point..], bare, gs, s, e) ==
            if |gs'| >= MAX_GRAINS then Failed
            else if At(t, p3) == '|' then Shifted(Alternatives(t[p3 + 1..], bare, gs', s', e'), p3 + 1 - point)
            else if (if bare then p3 == |t| else At(t, p3) == ')') then Complete(p3 + 1 - point, gs', s', e')
            else Failed
  {
    hide FindGrain, TailLen, Alternatives;
    AlternativesUnfold(t[point..], bare, gs, s, e);
    Drop(t, point, p2 - point);
    AtHere(t, point, p3 - point);
    if At(t, p3) == '|' { Drop(t, point, p3 + 1 - point); }
  }

  lemma ScanEnds(r: Text, atStart: bool, cur: GrainSet)
    requires r == []
    ensures Scan(r, atStart, cur) == Outcome(cur.grains != [], cur)
  {
  }

  class Optimiser {
    // cl_regopt_grain, cl_regopt_grain_len, cl_regopt_anchor_start, cl_regopt_anchor_end
    var grains: seq<Text>
    var grainLen: nat
    var anchorStart: bool
    var anchorEnd: bool
    // grain_buffer and grain_buffer_grains
    var buffer: seq<Text>

    constructor ()
      ensures Public() == EmptySet
    {
      grains, grainLen, anchorStart, anchorEnd := [], 0, false, false;
      buffer := [];
    }

    function Public(): GrainSet
      reads this
    {
      GrainSet(grains, grainLen, anchorStart, anchorEnd)
    }

    method UpdateGrainBuffer(atStart: bool, atEnd: bool)
      modifies this
      ensures Public() == Update(old(Public()), buffer, atStart, atEnd) && buffer == old(buffer)
    {
      hide Shortest;
      if buffer == [] { return; }
      var len := ShortestLength(buffer);
      var n := |buffer|;
      if len >= 2 {
        if len > grainLen + 1 || (len == grainLen + 1 && n <= 3 * |grains|) ||
           (len == grainLen && n < |grains|) || (len == grainLen - 1 && 3 * n < |grains|) {
          var copied := [];
          for i := 0 to n
            invariant copied == buffer[..i]
          {
            copied := copied + [buffer[i]];
          }
          assert copied == buffer;
          grains, grainLen, anchorStart, anchorEnd := copied, len, atStart, atEnd;
        }
      }
    }

    /** Returns `mark` on failure; a bare disjunction ends one past the terminator. */
    method ReadDisjunctionAt(t: Text, mark: nat, noParen: bool)
      returns (point: nat, alignStart: bool, alignEnd: bool)
      requires mark <= |t|
      modifies this`buffer
      ensures match ReadDisjunction(t[mark..], noParen)
              case Failed => point == mark
              case Complete(len, gs, s, e) =>
                point == mark + len > mark && buffer == gs && alignStart == s && alignEnd == e
    {
      hide Alternatives, FindGrain, TailLen;
      point, alignStart, alignEnd := mark, true, true;
      AtHere(t, mark, 0);
      AtHere(t, mark, 1);
      AtHere(t, mark, 2);
      if noParen {
        if At(t, point) == '(' { return; }
      } else {
        if At(t, point) != '(' { return; }
        point := point + 1;
        if At(t, point) == '?' {
          point := point + 1;
          if At(t, point) == ':' { point := point + 1; } else { point := mark; return; }
        }
      }
      Drop(t, mark, point - mark);
      buffer := [];
      var ok;
      ok, point, alignStart, alignEnd := ReadAlternatives(t, point, noParen);
      if !ok { point := mark; }
    }

    /** The loop of read_disjunction over the alternatives. */
    method ReadAlternatives(t: Text, start: nat, noParen: bool)
      returns (ok: bool, point: nat, alignStart: bool, alignEnd: bool)
      requires start <= |t| && buffer == []
      modifies this`buffer
      ensures match Alternatives(t[start..], noParen, [], true, true)
              case Failed => !ok
              case Complete(len, gs, s, e) =>
                ok && point == start + len > start && buffer == gs && alignStart == s && alignEnd == e
    {
      hide FindGrain, TailLen, Alternatives;
      ghost var whole := Alternatives(t[start..], noParen, [], true, true);
      point, alignStart, alignEnd := start, true, true;
      while true
        invariant start <= point <= |t|
        invariant whole == Shifted(Alternatives(t[point..], noParen, buffer, alignStart, alignEnd), point - start)
        decreases |t| - point
      {
        ghost var s, e, gs := alignStart, alignEnd, buffer;
        var found, skipped, p2, grain := SkipToGrain(t, point);
        if !found {
          AlternativesUnfold(t[point..], noParen, gs, s, e);
          return false, point, alignStart, alignEnd;
        }
        var p3 := SkipTail(t, p2);
        if skipped { alignStart := false; }
        buffer := buffer + [grain];
        OneAlternative(t, point, p2, p3, noParen, gs, s, e, skipped, grain);
        if |buffer| >= MAX_GRAINS { return false, p2, alignStart, alignEnd; }
        if p3 > p2 { alignEnd := false; }
        if At(t, p3) == '|' {
          point := p3 + 1;
        } else if (!noParen && At(t, p3) == ')') || (noParen && p3 == |t|) {
          return true, p3 + 1, alignStart, alignEnd;
        } else {
          return false, p3, alignStart, alignEnd;
        }
      }
    }

    /** cl_regopt_analyse. */
    method AnalyseRegex(regex: Text) returns (ok: bool)
      modifies this
      ensures ok == Analyse(regex).ok && Public() == Analyse(regex).set_
    {
      hide ReadGrain, ReadDisjunction, WildcardLen, ReadKleene, Update, Scan;
      var point, alignStart, alignEnd;
      var mark := 0;
      assert regex[0..] == regex;
      grains, grainLen, anchorStart, anchorEnd := [], 0, false, false;
      point, alignStart, alignEnd := ReadDisjunctionAt(regex, mark, true);
      if point > mark {
        UpdateGrainBuffer(alignStart, alignEnd);
        return grains != [];
      }
      while true
        invariant 0 <= mark <= |regex|
        invariant Analyse(regex) == Scan(regex[mark..], mark == 0, Public())
        decreases |regex| - mark
      {
        if mark == |regex| {
          ScanEnds(regex[mark..], mark == 0, Public());
          return grains != [];
        }
        ok, mark := Step(regex, mark);
        if !ok { return; }
      }
    }

    /** One turn of the main loop: a grain, else a disjunction, else a wildcard. */
    method Step(regex: Text, mark: nat) returns (ok: bool, next: nat)
      requires mark < |regex|
      modifies this
      ensures ok ==> mark < next <= |regex|
      ensures ok ==> Scan(regex[mark..], mark == 0, old(Public())) == Scan(regex[next..], false, Public())
      ensures !ok ==> Scan(regex[mark..], mark == 0, old(Public())) == Outcome(false, Public())
    {
      hide ReadGrain, ReadDisjunction, WildcardLen, ReadKleene, Update, Scan;
      ScanUnfold(regex[mark..], mark == 0, Public());
      var atStart := mark == 0;
      var grain, alignStart, alignEnd, oneOrMore;
      next, grain := ReadGrainAt(regex, mark);
      if next > mark {
        buffer := [grain];
        Drop(regex, mark, next - mark);
        UpdateGrainBuffer(atStart, next == |regex|);
        return true, next;
      }
      next, alignStart, alignEnd := ReadDisjunctionAt(regex, mark, false);
      if next > mark {
        Drop(regex, mark, next - mark);
        var atEnd := next == |regex|;
        var point;
        point, oneOrMore := ReadKleeneOp(regex, next);
        Drop(regex, mark, point - mark);
        if point == next { oneOrMore := true; } else { next := point; }
        if oneOrMore { UpdateGrainBuffer(atStart && alignStart, atEnd && alignEnd); }
        return true, next;
      }
      next := ReadWildcard(regex, mark);
      Drop(regex, mark, next - mark);
      return next > mark, next;
    }
  }
}
