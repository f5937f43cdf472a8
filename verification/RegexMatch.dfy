/** The CL_Regex object: the grains cut to one length, the jump table, the search that filters
    strings before the engine sees them, and the lexicon scan built on it. */
module RegexMatch {
  import opened RegexSyntax
  import opened RegoptReaders
  import opened RegoptParse
  import opened RegoptTree
  import opened RegoptSound
  import opened RegoptEnds
  import opened Regopt

  // ----- cutting grains to one length

  /** Whether cutting removes prefixes, as opposed to suffixes. */
  predicate CutsPrefix(s: GrainSet)
  {
    s.anchorEnd && !s.anchorStart
  }

  function CutGrain(g: Text, len: nat, prefix: bool): Text
    requires len <= |g|
  {
    if prefix then g[|g| - len..] else g[..len]
  }

  predicate AllOfLength(gs: seq<Text>, len: nat)
  {
    forall k :: 0 <= k < |gs| ==> |gs[k]| == len
  }

  function CutAll(s: GrainSet): (c: GrainSet)
    requires s.grains != []
    ensures |c.grains| == |s.grains| && AllOfLength(c.grains, c.len)
  {
    var len, prefix := Shortest(s.grains), CutsPrefix(s);
    var uneven := exists k :: 0 <= k < |s.grains| && |s.grains[k]| > len;
    GrainSet(seq(|s.grains|, k requires 0 <= k < |s.grains| => CutGrain(s.grains[k], len, prefix)), len,
             s.anchorStart && !(uneven && prefix), s.anchorEnd && !(uneven && !prefix))
  }

  /** What is cut, and which anchors survive: the front is kept unless only the end is anchored, so a
      start anchor always stays, and next to it an end anchor stays only if nothing is cut. */
  lemma CutSides(s: GrainSet)
    requires s.grains != []
    ensures var c := CutAll(s);
            (forall k :: 0 <= k < |s.grains| ==> c.len <= |s.grains[k]|) && (exists k :: 0 <= k < |s.grains| && |s.grains[k]| == c.len) &&
            (!(s.anchorEnd && !s.anchorStart) ==> forall k :: 0 <= k < |s.grains| ==> c.grains[k] == s.grains[k][..c.len]) &&
            (s.anchorEnd && !s.anchorStart ==>
               forall k :: 0 <= k < |s.grains| ==> c.grains[k] == s.grains[k][|s.grains[k]| - c.len..]) &&
            (c.anchorStart <==> s.anchorStart) &&
            (c.anchorEnd <==> s.anchorEnd && (!s.anchorStart || forall k :: 0 <= k < |s.grains| ==> |s.grains[k]| == |s.grains[0]|))
  {
    var n := Shortest(s.grains);
    forall k | 0 <= k < |s.grains| ensures |s.grains[k]| >= n { assert s.grains[k] in s.grains; }
    hide Shortest;
    var g :| g in s.grains && |g| == n;
    var k :| 0 <= k < |s.grains| && s.grains[k] == g;
  }

  /** A string that the full grains account for is one the cut grains account for. */
  lemma CutKeepsHits(s: GrainSet, reliable: bool, w: Text)
    requires s.grains != [] && Hit(s.grains, s.anchorStart, s.anchorEnd && reliable, w)
    ensures var c := CutAll(s); Hit(c.grains, c.anchorStart, c.anchorEnd && reliable, w)
  {
    var c := CutAll(s);
    var k :| 0 <= k < |s.grains| && HitBy(s.grains[k], s.anchorStart, s.anchorEnd && reliable, w);
    assert |s.grains[k]| >= c.len by { assert s.grains[k] in s.grains; }
    hide Shortest, HitBy;
    CutKeepsHit(s.grains[k], c.len, CutsPrefix(s), s.anchorStart, s.anchorEnd && reliable,
                c.anchorStart, c.anchorEnd && reliable, w);
    assert c.grains[k] == CutGrain(s.grains[k], c.len, CutsPrefix(s));
  }

  lemma CutKeepsHit(g: Text, len: nat, prefix: bool, s: bool, e: bool, s': bool, e': bool, w: Text)
    requires len <= |g| && HitBy(g, s, e, w)
    requires (s' ==> s) && (e' ==> e)
    requires |g| > len ==> !(prefix && s') && !(!prefix && e')
    ensures HitBy(CutGrain(g, len, prefix), s', e', w)
  {
    var h := CutGrain(g, len, prefix);
    var i :| OccursAt(g, w, i);
    var d := if prefix then |g| - len else 0;
    assert h == g[d..d + len];
    assert w[i..i + |g|][d..d + len] == w[i + d..i + d + len];
    assert OccursAt(h, w, i + d);
    if e' {
      assert w[|w| - len..] == w[|w| - |g|..][|g| - len..];
    }
  }

  // ----- the search

  /** The `j`-th character from the end. */
  function FromEnd(g: Text, j: nat): Char
    requires j < |g|
  {
    g[|g| - 1 - j]
  }

  /** The smallest distance of `ch` from the end of a grain; `len` if no grain contains it. */
  predicate IsJump(gs: seq<Text>, len: nat, ch: nat, jump: int)
    requires AllOfLength(gs, len)
  {
    0 <= jump <= len &&
    (forall k, j :: 0 <= k < |gs| && 0 <= j < jump ==> FromEnd(gs[k], j) as int != ch) &&
    (jump < len ==> exists k :: 0 <= k < |gs| && FromEnd(gs[k], jump) as int == ch)
  }

  /** The offsets at which a grain counts. */
  predicate Allowed(anchorStart: bool, anchorEnd: bool, maxI: int, i: int)
  {
    0 <= i <= maxI && (anchorEnd ==> i == maxI) && (anchorStart && !anchorEnd ==> i == 0)
  }

  ghost predicate SomeGrainAt(gs: seq<Text>, w: Text, i: int)
  {
    exists k :: 0 <= k < |gs| && OccursAt(gs[k], w, i)
  }

  ghost predicate GrainMatches(c: GrainSet, w: Text)
  {
    exists i :: Allowed(c.anchorStart, c.anchorEnd, |w| - c.len, i) && SomeGrainAt(c.grains, w, i)
  }

  /** Where the search may find a grain: anywhere, at offset 0 with a start anchor only, and where the
      grain ends the string with an end anchor. */
  lemma OffsetsAllowed(c: GrainSet, w: Text)
    requires AllOfLength(c.grains, c.len)
    ensures GrainMatches(c, w) <==>
            exists k, front: Text, rest: Text :: 0 <= k < |c.grains| && w == front + c.grains[k] + rest &&
              (c.anchorEnd ==> rest == []) && (c.anchorStart && !c.anchorEnd ==> front == [])
  {
    if GrainMatches(c, w) {
      var i :| Allowed(c.anchorStart, c.anchorEnd, |w| - c.len, i) && SomeGrainAt(c.grains, w, i);
      var k :| 0 <= k < |c.grains| && OccursAt(c.grains[k], w, i);
      assert w == w[..i] + c.grains[k] + w[i + c.len..];
    }
    forall k, front: Text, rest: Text | 0 <= k < |c.grains| && w == front + c.grains[k] + rest &&
        (c.anchorEnd ==> rest == []) && (c.anchorStart && !c.anchorEnd ==> front == [])
      ensures GrainMatches(c, w)
    {
      assert w[|front|..|front| + c.len] == c.grains[k];
      assert OccursAt(c.grains[k], w, |front|);
      assert SomeGrainAt(c.grains, w, |front|);
    }
  }

  /** The pre-filter lets the string through to the engine. */
  ghost predicate Passes(c: GrainSet, w: Text)
  {
    c.grains == [] || GrainMatches(c, w)
  }

  lemma HitMatches(c: GrainSet, w: Text)
    requires AllOfLength(c.grains, c.len) && Hit(c.grains, c.anchorStart, c.anchorEnd, w)
    ensures GrainMatches(c, w)
  {
    var k :| 0 <= k < |c.grains| && HitBy(c.grains[k], c.anchorStart, c.anchorEnd, w);
    var g := c.grains[k];
    var i :| OccursAt(g, w, i);
    var at := if c.anchorEnd then |w| - |g| else if c.anchorStart then 0 else i;
    assert w[at..at + |g|] == g;
    assert OccursAt(g, w, at) && SomeGrainAt(c.grains, w, at);
  }

  /** No grain starts at any of the offsets that the jump skips. */
  lemma JumpIsSafe(gs: seq<Text>, len: nat, w: Text, i: nat, jump: int, p: int)
    requires AllOfLength(gs, len) && len > 0 && i + len <= |w|
    requires IsJump(gs, len, w[i + len - 1] as int, jump) && i <= p < i + jump
    ensures !SomeGrainAt(gs, w, p)
  {
    if SomeGrainAt(gs, w, p) {
      var k :| 0 <= k < |gs| && OccursAt(gs[k], w, p);
      CharOfOccurrence(gs[k], w, p, p - i);
    }
  }

  lemma CharOfOccurrence(g: Text, w: Text, p: int, j: nat)
    requires OccursAt(g, w, p) && j < |g|
    ensures FromEnd(g, j) == w[p + |g| - 1 - j]
  {
    assert w[p..p + |g|][|g| - 1 - j] == w[p + |g| - 1 - j];
  }

  lemma CutIs(s: GrainSet, copied: seq<Text>, uneven: bool)
    requires s.grains != [] && |copied| == |s.grains|
    requires forall k :: 0 <= k < |copied| ==> Shortest(s.grains) <= |s.grains[k]|
    requires forall k :: 0 <= k < |copied| ==> copied[k] == CutGrain(s.grains[k], Shortest(s.grains), CutsPrefix(s))
    requires uneven <==> exists k :: 0 <= k < |s.grains| && |s.grains[k]| > Shortest(s.grains)
    ensures CutAll(s) == GrainSet(copied, Shortest(s.grains), s.anchorStart && !(uneven && CutsPrefix(s)),
                                  s.anchorEnd && !(uneven && !CutsPrefix(s)))
  {
    hide Shortest;
    assert CutAll(s).grains == copied;
  }

  lemma CutIsSlice(g: Text, len: nat, prefix: bool)
    requires len <= |g|
    ensures CutGrain(g, len, prefix) == if prefix then g[|g| - len..] else g[..len]
    ensures |g| == len ==> CutGrain(g, len, prefix) == g
  {
  }

  /** The copying loop of regopt_data_copy_to_regex_object; `uneven`: some grain was shortened. */
  method CutGrains(gs: seq<Text>, len: nat, cutPrefix: bool) returns (copied: seq<Text>, uneven: bool)
    requires gs != [] && len == Shortest(gs)
    ensures |copied| == |gs|
    ensures forall k :: 0 <= k < |gs| ==> len <= |gs[k]| && copied[k] == CutGrain(gs[k], len, cutPrefix)
    ensures uneven <==> exists k :: 0 <= k < |gs| && |gs[k]| > len
  {
    hide Shortest, CutGrain;
    copied, uneven := [], false;
    for i := 0 to |gs|
      invariant |copied| == i
      invariant forall k :: 0 <= k < i ==> len <= |gs[k]| && copied[k] == CutGrain(gs[k], len, cutPrefix)
      invariant uneven <==> exists k :: 0 <= k < i && |gs[k]| > len
    {
      var grain := gs[i];
      assert grain in gs;
      var l := |grain|;
      CutIsSlice(grain, len, cutPrefix);
      if l > len {
        uneven := true;
        copied := copied + [if cutPrefix then grain[l - len..] else grain[..len]];
      } else {
        copied := copied + [grain];
      }
    }
  }

  class Regex {
    /** The compiled expression: does the engine match the whole string? */
    const needle: Text -> bool
    var grains: seq<Text>
    var grainLen: nat
    var anchorStart: bool
    var anchorEnd: bool
    const jumptable: array<int>
    var successes: nat

    constructor (needle: Text -> bool)
      ensures this.needle == needle && grains == [] && !anchorEnd && fresh(jumptable) && jumptable.Length == 256 && Valid()
    {
      this.needle := needle;
      grains, grainLen, anchorStart, anchorEnd, successes := [], 0, false, false, 0;
      jumptable := new int[256];
    }

    function Set(): GrainSet
      reads `grains, `grainLen, `anchorStart, `anchorEnd
    {
      GrainSet(grains, grainLen, anchorStart, anchorEnd)
    }

    ghost predicate Valid()
      reads `grains, `grainLen, jumptable
    {
      jumptable.Length == 256 && AllOfLength(grains, grainLen) &&
      (grains != [] ==> grainLen > 0 && forall ch :: 0 <= ch < 256 ==> IsJump(grains, grainLen, ch, jumptable[ch]))
    }

    /** make_jump_table, inner loops: the jump distance of one character. */
    method JumpDistance(ch: nat) returns (jump: int)
      requires AllOfLength(grains, grainLen)
      ensures IsJump(grains, grainLen, ch, jump)
    {
      jump := grainLen;
      for k := 0 to |grains|
        invariant 0 <= jump <= grainLen
        invariant forall k', j :: 0 <= k' < k && 0 <= j < jump ==> FromEnd(grains[k'], j) as int != ch
        invariant jump < grainLen ==> exists k' :: 0 <= k' < k && FromEnd(grains[k'], jump) as int == ch
      {
        var j := 0;
        while j < grainLen
          invariant 0 <= j <= grainLen
          invariant forall j' :: 0 <= j' < j ==> FromEnd(grains[k], j') as int != ch
        {
          if FromEnd(grains[k], j) as int == ch {
            if j < jump { jump := j; }
            break;
          }
          j := j + 1;
        }
      }
    }

    method MakeJumpTable()
      requires jumptable.Length == 256 && AllOfLength(grains, grainLen)
      modifies jumptable
      ensures grains != [] ==> forall ch :: 0 <= ch < 256 ==> IsJump(grains, grainLen, ch, jumptable[ch])
      ensures grains == [] ==> forall ch :: 0 <= ch < 256 ==> jumptable[ch] == 0
    {
      for ch := 0 to 256
        invariant forall c :: 0 <= c < ch ==> jumptable[c] == 0
      {
        jumptable[ch] := 0;
      }
      if |grains| > 0 {
        for ch := 0 to 256
          invariant forall c :: 0 <= c < ch ==> IsJump(grains, grainLen, c, jumptable[c])
        {
          var jump := JumpDistance(ch);
          jumptable[ch] := jump;
        }
      }
    }

    /** regopt_data_copy_to_regex_object. */
    method CopyFrom(o: Optimiser)
      requires jumptable.Length == 256 && o.grains != [] && Shortest(o.grains) > 0
      modifies this, jumptable, o
      ensures Valid() && Set() == CutAll(old(o.Public()))
      ensures anchorStart == old(o.anchorStart)
      ensures anchorEnd <==> old(o.anchorEnd) &&
                             (!anchorStart || forall k :: 0 <= k < |old(o.grains)| ==> |old(o.grains)[k]| == |old(o.grains)[0]|)
    {
      hide Shortest, CutAll;
      CutSides(o.Public());
      ghost var source := o.Public();
      var len := ShortestLength(o.grains);
      var cutPrefix := o.anchorEnd && !o.anchorStart;
      var copied, uneven := CutGrains(o.grains, len, cutPrefix);
      if uneven {
        if cutPrefix { o.anchorStart := false; } else { o.anchorEnd := false; }
      }
      CutIs(source, copied, uneven);
      grains, grainLen, anchorStart, anchorEnd := copied, len, o.anchorStart, o.anchorEnd;
      MakeJumpTable();
    }

    /** The comparison of every grain with the text at one offset. */
    method CompareAt(w: Text, i: nat) returns (found: bool)
      requires AllOfLength(grains, grainLen) && i + grainLen <= |w|
      ensures found <==> SomeGrainAt(grains, w, i)
    {
      found := false;
      for k := 0 to |grains|
        invariant !found && forall k' :: 0 <= k' < k ==> !OccursAt(grains[k'], w, i)
      {
        var di := 0;
        while di < grainLen && grains[k][di] == w[i + di]
          invariant 0 <= di <= grainLen
          invariant grains[k][..di] == w[i..i + di]
        {
          di := di + 1;
        }
        if di >= grainLen {
          assert grains[k][..di] == grains[k];
          assert OccursAt(grains[k], w, i);
          return true;
        }
        assert w[i..i + grainLen][di] == w[i + di];
      }
    }

    /** The loop of cl_regex_match that looks for a grain. */
    method Search(w: Text) returns (grainMatch: bool)
      requires Valid() && grains != []
      ensures grainMatch <==> GrainMatches(Set(), w)
    {
      grainMatch := false;
      var maxI := |w| - grainLen;
      var i := if anchorEnd && maxI >= 0 then maxI else 0;
      ghost var first := i;
      while i <= maxI
        invariant first <= i && (anchorStart ==> i == first)
        invariant grainMatch ==> GrainMatches(Set(), w)
        invariant !grainMatch ==> forall p :: first <= p < i ==> !SomeGrainAt(grains, w, p)
        decreases maxI + 1 - i
      {
        ghost var here := i;
        var jump := jumptable[w[i + grainLen - 1] as int];
        if jump > 0 {
          forall p | i <= p < i + jump ensures !SomeGrainAt(grains, w, p) {
            JumpIsSafe(grains, grainLen, w, i, jump, p);
          }
          i := i + jump;
        } else {
          var found := CompareAt(w, i);
          if found {
            assert Allowed(anchorStart, anchorEnd, maxI, i);
            grainMatch := true;
          }
          i := i + 1;
        }
        if anchorStart {
          assert first == here;
          assert !grainMatch ==> forall p :: Allowed(anchorStart, anchorEnd, maxI, p) ==> p == first;
          break;
        }
      }
    }

    /** cl_regex_match, for strings that need no folding. */
    method Match(w: Text, optimize: bool) returns (result: bool)
      requires Valid()
      modifies this`successes
      ensures result == (needle(w) && (!optimize || Passes(Set(), w)))
      ensures Valid() && Set() == old(Set())
      ensures successes == old(successes) + if !optimize || Passes(Set(), w) then 0 else 1
    {
      var grainMatch := true;
      if grains != [] && optimize {
        grainMatch := Search(w);
      }
      if !grainMatch {
        successes := successes + 1;
        return false;
      }
      return needle(w);
    }
  }

  // ----- the whole optimiser against the engine

  ghost predicate EndsWithSome(gs: seq<Text>, w: Text)
  {
    exists k :: 0 <= k < |gs| && EndsWith(gs[k], w)
  }

  /** However often the last symbols are repeated, the end of the regex matches something that ends
      with a cut grain. */
  ghost predicate EndHolds(a: Alts)
  {
    var s, ls := Analyse(PAlts(a)).set_, EndLiterals(a);
    s.grains != [] &&
    forall k, n: nat :: 0 <= k < |ls| && CountOk(ls[k].q, ls[k].mode, n) ==> EndsWithSome(CutAll(s).grains, Image(ls[k], n))
  }

  /** The filter keeps an end anchor only if it is right. */
  ghost predicate EndTrusted(a: Alts)
  {
    var o := Analyse(PAlts(a));
    o.ok && o.set_.grains != [] && CutAll(o.set_).anchorEnd ==> EndHolds(a)
  }

  /** With an end anchor only the end of the string is compared. */
  lemma EndMatches(c: GrainSet, w: Text)
    requires AllOfLength(c.grains, c.len) && c.anchorEnd
    ensures GrainMatches(c, w) <==> EndsWithSome(c.grains, w)
  {
    var at := |w| - c.len;
    if GrainMatches(c, w) {
      var k :| 0 <= k < |c.grains| && OccursAt(c.grains[k], w, at);
      assert w[at..at + |c.grains[k]|] == w[at..];
    }
    if EndsWithSome(c.grains, w) {
      var k :| 0 <= k < |c.grains| && EndsWith(c.grains[k], w);
      assert w[at..at + |c.grains[k]|] == w[at..];
      assert OccursAt(c.grains[k], w, at) && SomeGrainAt(c.grains, w, at);
    }
  }

  lemma StillEnds(gs: seq<Text>, v: Text, w: Text)
    requires EndsWithSome(gs, w)
    ensures EndsWithSome(gs, v + w)
  {
    var k :| 0 <= k < |gs| && EndsWith(gs[k], w);
    EndsLater(gs[k], v, w);
  }

  /** Every string of the language passes the filter built from the regex. */
  lemma FilterIsSound(lang: Lang, a: Alts, w: Text)
    requires OkAlts(a) && Regular(a) && InAlts(lang, a, w) && Analyse(PAlts(a)).ok
    requires Analyse(PAlts(a)).set_.grains != [] && EndTrusted(a)
    ensures GrainMatches(CutAll(Analyse(PAlts(a)).set_), w)
  {
    hide OkAlts, Regular, InAlts, Analyse, EndReliable, CutAll, EndsWithSome, CountOk, Image, GrainMatches, EndLiterals;
    var s := Analyse(PAlts(a)).set_;
    if CutAll(s).anchorEnd {
      StoredSetEnds(a);
      var k, n, v := EndParts(lang, a, w);
      StillEnds(CutAll(s).grains, v, Image(EndLiterals(a)[k], n));
      EndMatches(CutAll(s), w);
    } else {
      GrainSoundness(lang, a, w);
      CutKeepsHits(s, EndReliable(a), w);
      HitMatches(CutAll(s), w);
    }
  }

  /** With a start anchor and grains of different length only the front of a string is compared, so no
      match is lost, whatever the quantifiers at the end. */
  lemma StartAnchorDecides(lang: Lang, a: Alts, w: Text, j: nat, k: nat)
    requires OkAlts(a) && Regular(a) && InAlts(lang, a, w) && Analyse(PAlts(a)).ok
    requires var s := Analyse(PAlts(a)).set_;
             s.anchorStart && j < |s.grains| && k < |s.grains| && |s.grains[j]| != |s.grains[k]|
    ensures EndTrusted(a) && GrainMatches(CutAll(Analyse(PAlts(a)).set_), w)
    ensures exists i :: 0 <= i < |CutAll(Analyse(PAlts(a)).set_).grains| && CutAll(Analyse(PAlts(a)).set_).grains[i] <= w
  {
    hide OkAlts, Regular, InAlts, Analyse, CutAll;
    var s := Analyse(PAlts(a)).set_;
    CutSides(s);
    FilterIsSound(lang, a, w);
    var i :| 0 <= i < |CutAll(s).grains| && OccursAt(CutAll(s).grains[i], w, 0);
    assert CutAll(s).grains[i] <= w;
  }

  /** An end anchor that survives the cutting comes with the grains of the end literals. */
  lemma StoredSetEnds(a: Alts)
    requires OkAlts(a) && Regular(a) && Analyse(PAlts(a)).ok && Analyse(PAlts(a)).set_.grains != []
    requires CutAll(Analyse(PAlts(a)).set_).anchorEnd
    ensures Ends(a) && Analyse(PAlts(a)).set_.anchorEnd && Analyse(PAlts(a)).set_.grains == GrainsOf(EndLiterals(a))
  {
    hide OkAlts, Regular, Analyse, AnalyseTree, Ends, EndLiterals;
    AnalyseText(a);
    StoredEnd(a);
  }

  /** For a regex whose filter keeps an end anchor, and whose alternatives all match something: no
      match is lost if and only if every image of the literals at the end of the regex ends with a
      cut grain. */
  lemma FilterExact(lang: Lang, a: Alts)
    requires OkAlts(a) && Regular(a) && Populated(lang, a) && Analyse(PAlts(a)).ok
    requires Analyse(PAlts(a)).set_.grains != [] && CutAll(Analyse(PAlts(a)).set_).anchorEnd
    ensures (forall w :: InAlts(lang, a, w) ==> GrainMatches(CutAll(Analyse(PAlts(a)).set_), w)) <==> EndHolds(a)
  {
    hide OkAlts, Regular, InAlts, Analyse, CutAll, EndsWithSome, CountOk, Image, GrainMatches, EndLiterals, Populated, Ends;
    var c, ls := CutAll(Analyse(PAlts(a)).set_), EndLiterals(a);
    StoredSetEnds(a);
    if EndHolds(a) {
      forall w | InAlts(lang, a, w) ensures GrainMatches(c, w) { FilterIsSound(lang, a, w); }
    }
    if forall w :: InAlts(lang, a, w) ==> GrainMatches(c, w) {
      forall k, n: nat | 0 <= k < |ls| && CountOk(ls[k].q, ls[k].mode, n) ensures EndsWithSome(c.grains, Image(ls[k], n)) {
        var v := EndBuild(lang, a, k, n);
        EndMatches(c, v + Image(ls[k], n));
        ImageIsLong(ls, k, n, Analyse(PAlts(a)).set_);
        EndsInside(c, v, Image(ls[k], n));
      }
    }
  }

  /** An image is at least as long as the cut grains. */
  lemma ImageIsLong(ls: seq<TreeLiterals>, k: nat, n: nat, s: GrainSet)
    requires k < |ls| && CountOk(ls[k].q, ls[k].mode, n) && s.grains != [] && s.grains == GrainsOf(ls)
    ensures |Image(ls[k], n)| >= CutAll(s).len
  {
    GrainPrefix(ls[k], n);
    hide Shortest, Image;
    assert s.grains[k] == GrainOf(ls[k]) && s.grains[k] in s.grains;
  }

  lemma EndsInside(c: GrainSet, v: Text, w: Text)
    requires AllOfLength(c.grains, c.len) && |w| >= c.len && EndsWithSome(c.grains, v + w)
    ensures EndsWithSome(c.grains, w)
  {
    var k :| 0 <= k < |c.grains| && EndsWith(c.grains[k], v + w);
    EndsLater(c.grains[k], v, w);
  }

  lemma FilterPassesAll(lang: Lang, a: Alts, needle: Text -> bool)
    requires OkAlts(a) && Regular(a) && Analyse(PAlts(a)).ok && Analyse(PAlts(a)).set_.grains != []
    requires (forall w :: needle(w) <==> InAlts(lang, a, w)) && EndTrusted(a)
    ensures forall w :: needle(w) ==> GrainMatches(CutAll(Analyse(PAlts(a)).set_), w)
  {
    hide *;
    forall w | needle(w) ensures GrainMatches(CutAll(Analyse(PAlts(a)).set_), w) {
      FilterIsSound(lang, a, w);
    }
  }

  /** If no quantifier changes what precedes the end of a match, the end anchor is right. */
  lemma ReliableHolds(a: Alts)
    requires OkAlts(a) && Regular(a) && Analyse(PAlts(a)).ok && Analyse(PAlts(a)).set_.grains != []
    requires CutAll(Analyse(PAlts(a)).set_).anchorEnd && EndReliable(a)
    ensures EndHolds(a)
  {
    hide OkAlts, Regular, Analyse, CountOk, Image, EndLiterals, Ends, ExactTail, EndsWith, GrainOf;
    var s, ls := Analyse(PAlts(a)).set_, EndLiterals(a);
    StoredSetEnds(a);
    EndsFreely(a);
    forall k, n: nat | 0 <= k < |ls| && CountOk(ls[k].q, ls[k].mode, n) ensures EndsWithSome(CutAll(s).grains, Image(ls[k], n)) {
      ExactTailEnds(ls[k], n);
      CutEnds(s, k, Image(ls[k], n));
    }
  }

  lemma CutEnds(s: GrainSet, k: nat, w: Text)
    requires s.grains != [] && k < |s.grains| && CutAll(s).anchorEnd && EndsWith(s.grains[k], w)
    ensures EndsWithSome(CutAll(s).grains, w)
  {
    var g, len := s.grains[k], Shortest(s.grains);
    assert |g| >= len by { assert g in s.grains; }
    hide Shortest;
    var c := CutAll(s);
    assert c.grains[k] == CutGrain(g, len, CutsPrefix(s));
    assert c.grains[k] == g[|g| - len..];
    hide *;
    EndOfEnd(g, w, len);
    assert EndsWithSome(c.grains, w) by { SomeEnd(c.grains, k, w); }
  }

  lemma EndOfEnd(g: Text, w: Text, len: nat)
    requires EndsWith(g, w) && len <= |g|
    ensures EndsWith(g[|g| - len..], w)
  {
    assert w[|w| - len..] == w[|w| - |g|..][|g| - len..];
  }

  lemma SomeEnd(gs: seq<Text>, k: nat, w: Text)
    requires k < |gs| && EndsWith(gs[k], w)
    ensures EndsWithSome(gs, w)
  {
  }

  /** cl_new_regex: the tree and its language are what the engine makes of the text. */
  method NewRegex(regex: Text, needle: Text -> bool, ghost lang: Lang, ghost a: Alts) returns (rx: Regex)
    requires OkAlts(a) && PAlts(a) == regex && Regular(a)
    requires forall w :: needle(w) <==> InAlts(lang, a, w)
    ensures fresh(rx) && fresh(rx.jumptable) && rx.Valid() && rx.needle == needle
    ensures rx.grains != [] <==> Analyse(regex).ok
    ensures rx.grains != [] ==> Analyse(regex).set_.grains != [] && rx.Set() == CutAll(Analyse(regex).set_)
    ensures EndTrusted(a) ==> forall w :: needle(w) ==> Passes(rx.Set(), w)
  {
    hide Analyse, InAlts, OkAlts, Regular, EndTrusted, CutAll, Shortest, GrainMatches, PAlts, IsJump, AllOfLength, Regex.Valid;
    rx := new Regex(needle);
    var o := new Optimiser();
    var optimised := o.AnalyseRegex(regex);
    if optimised {
      StoredGrains(regex);
      rx.CopyFrom(o);
      if EndTrusted(a) {
        FilterPassesAll(lang, a, needle);
      }
    }
  }

  lemma StoredGrains(r: Text)
    requires Analyse(r).ok
    ensures Analyse(r).set_.grains != [] && Shortest(Analyse(r).set_.grains) >= 2
  {
    if ReadDisjunction(r, true).Failed? { ScanStores(r, true, EmptySet); }
  }

  lemma {:induction false} ScanStores(r: Text, atStart: bool, cur: GrainSet)
    requires cur.grains != [] ==> Shortest(cur.grains) >= 2
    ensures var o := Scan(r, atStart, cur);
            (o.ok ==> o.set_.grains != []) && (o.set_.grains != [] ==> Shortest(o.set_.grains) >= 2)
    decreases |r|
  {
    hide ReadGrain, ReadDisjunction, ReadKleene, WildcardLen, Shortest, Scan;
    if r == [] {
      ScanEnds(r, atStart, cur);
    } else {
      ScanUnfold(r, atStart, cur);
      var g := ReadGrain(r);
      if g.len > 0 {
        ScanStores(r[g.len..], false, Update(cur, [g.text], atStart, g.len == |r|));
      } else {
        match ReadDisjunction(r, false)
        case Complete(len, gs, s, e) =>
          var k := ReadKleene(r[len..]);
          ScanStores(r[len + k.len..], false,
            if k.len == 0 || k.oneOrMore then Update(cur, gs, atStart && s, len == |r| && e) else cur);
        case Failed =>
          var w := WildcardLen(r);
          if w > 0 { ScanStores(r[w..], false, cur); }
      }
    }
  }
}
