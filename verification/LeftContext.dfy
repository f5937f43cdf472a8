/** The left context of a concordance line measured in characters (the CHAR_CONTEXT branch of
    compose_kwic_line, cqp/concordance.c): tokens are collected outwards from the match, each one
    reversed, and the whole is reversed again. */
module LeftContext {
  type Text = seq<char>

  // ----- reversal

  function Rev(s: Text): (r: Text)
    ensures |r| == |s| && forall k :: 0 <= k < |s| ==> r[k] == s[|s| - 1 - k]
  {
    if s == [] then [] else Rev(s[1..]) + [s[0]]
  }

  lemma RevRev(s: Text)
    ensures Rev(Rev(s)) == s
  {
  }

  lemma RevAppend(a: Text, b: Text)
    ensures Rev(a + b) == Rev(b) + Rev(a)
  {
    hide Rev;
  }

  function Blanks(n: nat): (s: Text)
    ensures |s| == n && forall k :: 0 <= k < n ==> s[k] == ' '
  {
    seq(n, _ => ' ')
  }

  // ----- specification

  /** The tokens `lo .. hi - 1` with separators between them. */
  function Joined(tokens: seq<Text>, sep: Text, lo: nat, hi: nat): Text
    requires lo <= hi <= |tokens|
    decreases hi - lo
  {
    if lo == hi then []
    else tokens[lo] + (if lo + 1 < hi then sep else []) + Joined(tokens, sep, lo + 1, hi)
  }

  /** Collecting stops at an empty token. */
  function FirstUsed(tokens: seq<Text>, hi: nat): (lo: nat)
    requires hi <= |tokens|
    ensures lo <= hi && forall k :: lo <= k < hi ==> tokens[k] != []
    ensures lo > 0 ==> tokens[lo - 1] == []
  {
    if hi == 0 || tokens[hi - 1] == [] then hi else FirstUsed(tokens, hi - 1)
  }

  function LastN(s: Text, n: nat): Text
  {
    if |s| <= n then s else s[|s| - n..]
  }

  /** The part of a token that is shown. */
  datatype Piece = Piece(pos: nat, shown: Text)

  /** Field markers and other text printed around each token. */
  datatype Layout = Layout(sep: Text, before: nat -> Text, after: nat -> Text)

  function Dressed(l: Layout, p: Piece): Text
  {
    l.before(p.pos) + p.shown + l.after(p.pos)
  }

  /** The characters that count towards the width, in reading order; the first piece is the one
      next to the match. */
  function Visible(l: Layout, ps: seq<Piece>): Text
  {
    if ps == [] then []
    else
      var rest := ps[..|ps| - 1];
      ps[|ps| - 1].shown + (if rest == [] then [] else l.sep) + Visible(l, rest)
  }

  /** What is printed for them. */
  function Printed(l: Layout, ps: seq<Piece>): Text
  {
    if ps == [] then []
    else
      var rest := ps[..|ps| - 1];
      Dressed(l, ps[|ps| - 1]) + (if rest == [] then [] else l.sep) + Printed(l, rest)
  }

  /** The pieces as they are collected, each one reversed. */
  function Raw(l: Layout, ps: seq<Piece>): Text
  {
    if ps == [] then []
    else
      var rest := ps[..|ps| - 1];
      Raw(l, rest) + (if rest == [] then [] else l.sep) + Rev(Dressed(l, ps[|ps| - 1]))
  }

  lemma {:induction false} RawReversed(l: Layout, ps: seq<Piece>)
    requires |l.sep| <= 1
    ensures Rev(Raw(l, ps)) == Printed(l, ps)
  {
    hide Rev, Dressed;
    if ps != [] {
      var rest, t := ps[..|ps| - 1], Dressed(l, ps[|ps| - 1]);
      var sep := if rest == [] then [] else l.sep;
      RawReversed(l, rest);
      RevAppend(Raw(l, rest) + sep, Rev(t));
      RevAppend(Raw(l, rest), sep);
      RevRev(t);
      assert Rev(sep) == sep;
      assert t + (sep + Printed(l, rest)) == t + sep + Printed(l, rest);
    }
  }

  /** Without markup what is printed is what counts. */
  lemma {:induction false} PlainIsVisible(l: Layout, ps: seq<Piece>)
    requires forall k :: 0 <= k < |ps| ==> l.before(ps[k].pos) == [] && l.after(ps[k].pos) == []
    ensures Printed(l, ps) == Visible(l, ps)
  {
    if ps != [] {
      var p := ps[|ps| - 1];
      PlainIsVisible(l, ps[..|ps| - 1]);
      assert Dressed(l, p) == p.shown;
    }
  }

  lemma {:induction false} JoinedSplit(tokens: seq<Text>, sep: Text, lo: nat, mid: nat, hi: nat)
    requires lo <= mid <= hi <= |tokens|
    ensures exists front: Text :: Joined(tokens, sep, lo, hi) == front + Joined(tokens, sep, mid, hi)
    decreases mid - lo
  {
    if lo == mid {
      assert Joined(tokens, sep, lo, hi) == [] + Joined(tokens, sep, mid, hi);
    } else {
      JoinedSplit(tokens, sep, lo + 1, mid, hi);
      var tail := Joined(tokens, sep, mid, hi);
      var front: Text :| Joined(tokens, sep, lo + 1, hi) == front + tail;
      var head := tokens[lo] + (if lo + 1 < hi then sep else []);
      assert head + (front + tail) == (head + front) + tail;
    }
  }

  lemma LastNIsSuffix(s: Text, n: nat)
    ensures |LastN(s, n)| == (if |s| < n then |s| else n) && exists front: Text :: s == front + LastN(s, n)
  {
    var front := s[..|s| - |LastN(s, n)|];
    assert s == front + LastN(s, n);
  }

  /** Two stretches of tokens are joined by one separator; with the single tokens this determines the
      text of any stretch. */
  lemma {:induction false} JoinedParts(tokens: seq<Text>, sep: Text, lo: nat, mid: nat, hi: nat)
    requires lo < mid < hi <= |tokens|
    ensures Joined(tokens, sep, lo, lo) == [] && Joined(tokens, sep, lo, lo + 1) == tokens[lo]
    ensures Joined(tokens, sep, lo, hi) == Joined(tokens, sep, lo, mid) + sep + Joined(tokens, sep, mid, hi)
    decreases mid - lo
  {
    JoinedStep(tokens, sep, lo, hi);
    JoinedStep(tokens, sep, lo, mid);
    JoinedStep(tokens, sep, lo, lo + 1);
    assert Joined(tokens, sep, lo + 1, lo + 1) == [];
    if lo + 1 < mid { JoinedParts(tokens, sep, lo + 1, mid, hi); }
    hide *;
    if lo + 1 < mid {
      var a, b, c := tokens[lo], Joined(tokens, sep, lo + 1, mid), Joined(tokens, sep, mid, hi);
      assert a + sep + (b + sep + c) == a + sep + b + sep + c;
    }
  }

  lemma JoinedStep(tokens: seq<Text>, sep: Text, lo: nat, hi: nat)
    requires lo < hi <= |tokens|
    ensures Joined(tokens, sep, lo, hi) == tokens[lo] + (if lo + 1 < hi then sep else []) + Joined(tokens, sep, lo + 1, hi)
  {
  }

  lemma LastNBehind(front: Text, s: Text, n: nat)
    requires |s| >= n
    ensures LastN(front + s, n) == LastN(s, n)
  {
  }

  // ----- which part of which token is shown

  /** The width left for token `q` by the tokens behind it. */
  function Room(tokens: seq<Text>, sep: Text, width: nat, q: nat): int
    requires q < |tokens|
  {
    width - |Joined(tokens, sep, q + 1, |tokens|)| - if q + 1 < |tokens| then |sep| else 0
  }

  /** A token is reached if those behind it leave the context incomplete. */
  predicate Reached(tokens: seq<Text>, sep: Text, width: nat, q: nat)
    requires q < |tokens|
  {
    |Joined(tokens, sep, q + 1, |tokens|)| < width
  }

  /** Piece `j` belongs to the token `j` places before the last one, and shows as much of the token's
      end as there is room for. */
  predicate PieceOf(tokens: seq<Text>, sep: Text, width: nat, j: nat, p: Piece)
    requires j < |tokens|
  {
    var q := |tokens| - 1 - j;
    Room(tokens, sep, width, q) >= 0 && p == Piece(q, LastN(tokens[q], Room(tokens, sep, width, q)))
  }

  /** The pieces are those of the tokens that are reached before an empty one stops the collecting. */
  ghost predicate PiecesOf(tokens: seq<Text>, sep: Text, width: nat, ps: seq<Piece>) {
    |ps| <= |tokens| - FirstUsed(tokens, |tokens|) &&
    (forall j :: 0 <= j < |ps| ==> PieceOf(tokens, sep, width, j, ps[j])) &&
    forall q :: FirstUsed(tokens, |tokens|) <= q < |tokens| ==>
      (|tokens| - |ps| <= q <==> Reached(tokens, sep, width, q))
  }

  /** Every token but the outermost one is shown whole. */
  lemma WholeTokens(tokens: seq<Text>, sep: Text, width: nat, ps: seq<Piece>, j: nat)
    requires PiecesOf(tokens, sep, width, ps) && j + 1 < |ps|
    ensures ps[j].shown == tokens[|tokens| - 1 - j]
  {
    var q := |tokens| - 1 - j;
    assert PieceOf(tokens, sep, width, j, ps[j]);
    assert Reached(tokens, sep, width, q - 1);
  }

  // ----- recorded offsets

  /** The length of what is printed behind piece `j`. */
  function Behind(l: Layout, ps: seq<Piece>, j: nat): nat
    requires j <= |ps|
  {
    |Printed(l, ps[..j])| + if j == 0 then 0 else |l.sep|
  }

  /** Something is printed for position `q`; `n` is the number of tokens. */
  predicate Appears(l: Layout, n: nat, ps: seq<Piece>, q: int) {
    n - |ps| <= q < n && Dressed(l, ps[n - 1 - q]) != []
  }

  /** While the line is still reversed: the pair of a position lies where its piece is, or is unset. */
  predicate Recorded(l: Layout, n: nat, ps: seq<Piece>, index: nat, q: int, from: int, to: int) {
    if Appears(l, n, ps, q) then
      var j := n - 1 - q;
      from == index + Behind(l, ps, j) && to == from + |Dressed(l, ps[j])|
    else from == -1 && to == -1
  }

  /** In the finished line: the pair of a position delimits what is printed for it, in its place
      before all that is printed behind it, or is unset because nothing is printed. */
  predicate Delimits(l: Layout, n: nat, ps: seq<Piece>, line: Text, q: int, from: int, to: int) {
    if Appears(l, n, ps, q) then
      var j := n - 1 - q;
      to == |line| - Behind(l, ps, j) && from == to - |Dressed(l, ps[j])| >= 0 && line[from..to] == Dressed(l, ps[j])
    else from == -1 && to == -1
  }

  lemma {:induction false} RawLength(l: Layout, ps: seq<Piece>)
    ensures |Raw(l, ps)| == |Printed(l, ps)|
  {
    if ps != [] { RawLength(l, ps[..|ps| - 1]); }
  }

  /** What is printed ends with piece `j` and what is behind it. */
  lemma {:induction false} PieceInPlace(l: Layout, ps: seq<Piece>, j: nat)
    requires j < |ps|
    ensures var t, d := |Printed(l, ps)| - Behind(l, ps, j), Dressed(l, ps[j]);
            |d| <= t && Printed(l, ps)[t - |d|..t] == d
  {
    hide Dressed;
    var rest, last := ps[..|ps| - 1], ps[|ps| - 1];
    var sep := if rest == [] then [] else l.sep;
    if j == |ps| - 1 {
      InFront(Dressed(l, last), sep, Printed(l, rest));
    } else {
      PieceInPlace(l, rest, j);
      assert rest[..j] == ps[..j];
      var t, d := |Printed(l, rest)| - Behind(l, rest, j), Dressed(l, ps[j]);
      Further(Dressed(l, last) + sep, Printed(l, rest), t - |d|, t);
    }
  }

  lemma InFront(a: Text, b: Text, c: Text)
    ensures (a + b + c)[..|a|] == a && (a + b + c)[0..|a|] == a
  {
  }

  lemma Further(a: Text, b: Text, x: nat, y: nat)
    requires x <= y <= |b|
    ensures (a + b)[|a| + x..|a| + y] == b[x..y]
  {
  }

  // ----- the line under construction

  class KwicLine {
    var line: Text
    // pairs of offsets, -1 where nothing was recorded
    var returned: seq<int>

    constructor (line: Text, nrPositions: nat)
      ensures this.line == line && returned == seq(2 * nrPositions, _ => -1)
    {
      this.line := line;
      returned := seq(2 * nrPositions, _ => -1);
    }

    /** srev, applied to the part of the line from `from` on. */
    method Srev(from: nat)
      requires from <= |line|
      modifies this`line
      ensures line == old(line)[..from] + Rev(old(line)[from..])
    {
      hide Rev;
      var l := |line| - from;
      ghost var s := line[from..];
      for i := 0 to l / 2
        invariant |line| == from + l && line[..from] == old(line)[..from]
        invariant forall k :: from <= k < |line| ==>
                    line[k] == if i <= k - from < l - i then s[k - from] else s[l - 1 - (k - from)]
      {
        var buf := line[from + l - i - 1];
        line := line[from + l - i - 1 := line[from + i]];
        line := line[from + i := buf];
      }
      assert line == line[..from] + line[from..];
      assert line[from..] == Rev(s);
    }

    /** remember_this_position. */
    method Remember(position: int, from: int, to: int, wanted: seq<int>)
      requires |returned| == 2 * |wanted|
      modifies this`returned
      ensures |returned| == 2 * |wanted|
      ensures forall k :: 0 <= k < |wanted| ==>
                returned[2 * k] == (if wanted[k] == position then from else old(returned[2 * k])) &&
                returned[2 * k + 1] == (if wanted[k] == position then to else old(returned[2 * k + 1]))
    {
      for p := 0 to |wanted|
        invariant |returned| == 2 * |wanted|
        invariant forall k :: 0 <= k < |wanted| ==>
                    returned[2 * k] == (if k < p && wanted[k] == position then from else old(returned[2 * k])) &&
                    returned[2 * k + 1] == (if k < p && wanted[k] == position then to else old(returned[2 * k + 1]))
      {
        if wanted[p] == position {
          returned := returned[2 * p := from][2 * p + 1 := to];
        }
      }
    }

    /** All entries are right for the pieces collected so far. */
    predicate AllRecorded(l: Layout, n: nat, ps: seq<Piece>, index: nat, wanted: seq<int>)
      reads this`returned
    {
      |returned| == 2 * |wanted| &&
      forall k :: 0 <= k < |wanted| ==> Recorded(l, n, ps, index, wanted[k], returned[2 * k], returned[2 * k + 1])
    }

    /** Adds one piece: separator, token with its markup, reversal, recording. */
    method AddPiece(l: Layout, n: nat, index: nat, position: nat, shown: Text, wanted: seq<int>, ghost ps: seq<Piece>)
      requires index <= |line| && line[index..] == Raw(l, ps) && AllRecorded(l, n, ps, index, wanted)
      requires (ps != [] <==> |line| > index) && position == n - 1 - |ps|
      modifies this
      ensures index <= |line| && line[..index] == old(line)[..index]
      ensures line[index..] == Raw(l, ps + [Piece(position, shown)])
      ensures AllRecorded(l, n, ps + [Piece(position, shown)], index, wanted)
    {
      hide Rev, Dressed, Recorded, Raw, Behind;
      ghost var p := Piece(position, shown);
      ghost var first, entries := line, returned;
      if |line| > index { line := line + l.sep; }
      var from := |line|;
      ghost var stem := line;
      line := line + l.before(position);
      line := line + shown;
      line := line + l.after(position);
      DressedLine(l, p, stem);
      Srev(from);
      ghost var t := Rev(Dressed(l, p));
      assert line == stem + t;
      var to := |line|;
      if from != to { Remember(position, from, to, wanted); }
      RawStep(l, ps, p);
      assert line[index..] == stem[index..] + t;
      forall k | 0 <= k < |wanted|
        ensures Recorded(l, n, ps + [p], index, wanted[k], returned[2 * k], returned[2 * k + 1])
      {
        StillRecorded(l, n, ps, p, index, wanted[k], entries[2 * k], entries[2 * k + 1], from, to);
      }
    }

    lemma RawStep(l: Layout, ps: seq<Piece>, p: Piece)
      ensures Raw(l, ps + [p]) == Raw(l, ps) + (if ps == [] then [] else l.sep) + Rev(Dressed(l, p))
    {
      assert (ps + [p])[..|ps|] == ps;
    }

    lemma DressedLine(l: Layout, p: Piece, stem: Text)
      ensures stem + l.before(p.pos) + p.shown + l.after(p.pos) == stem + Dressed(l, p)
      ensures (stem + Dressed(l, p))[..|stem|] == stem && (stem + Dressed(l, p))[|stem|..] == Dressed(l, p)
    {
    }

    lemma StillRecorded(l: Layout, n: nat, ps: seq<Piece>, p: Piece, index: nat, wanted: int, a: int, b: int, from: int, to: int)
      requires Recorded(l, n, ps, index, wanted, a, b) && p.pos == n - 1 - |ps|
      requires from == index + |Raw(l, ps)| + (if ps == [] then 0 else |l.sep|) && to == from + |Dressed(l, p)|
      ensures var hit := from != to && wanted == p.pos;
              Recorded(l, n, ps + [p], index, wanted, if hit then from else a, if hit then to else b)
    {
      hide Rev, Dressed, Raw, Printed;
      var qs := ps + [p];
      RawLength(l, ps);
      assert qs[..|ps|] == ps;
      assert forall j :: 0 <= j < |ps| ==> qs[j] == ps[j] && qs[..j] == ps[..j];
    }

    /** Pads the reversed context with blanks up to its width. */
    method Pad(length: nat, width: nat)
      requires length <= width
      modifies this`line
      ensures line == old(line) + Blanks(width - length)
    {
      var n := length;
      assert line == line + Blanks(0);
      while n < width
        invariant length <= n <= width && line == old(line) + Blanks(n - length)
      {
        line := line + " ";
        n := n + 1;
        assert Blanks(n - 1 - length) + " " == Blanks(n - length);
      }
    }

    /** Aligns the recorded offsets with the reversed line. */
    method Patch(index: nat, wanted: seq<int>, ghost l: Layout, ghost n: nat, ghost ps: seq<Piece>, ghost front: Text)
      requires AllRecorded(l, n, ps, index, wanted) && line == front + Printed(l, ps) && index <= |front|
      modifies this`returned
      ensures |returned| == 2 * |wanted|
      ensures forall k :: 0 <= k < |wanted| ==>
                Delimits(l, n, ps, line, wanted[k], returned[2 * k], returned[2 * k + 1])
    {
      hide Dressed, Recorded, Delimits, Printed;
      ghost var entries := returned;
      for k := 0 to |wanted|
        invariant |returned| == 2 * |wanted|
        invariant forall j :: 2 * k <= j < |returned| ==> returned[j] == entries[j]
        invariant forall j :: 0 <= j < k ==> Delimits(l, n, ps, line, wanted[j], returned[2 * j], returned[2 * j + 1])
      {
        PatchOne(l, n, ps, front, index, wanted[k], returned[2 * k], returned[2 * k + 1]);
        if returned[2 * k] >= 0 {
          var oldStart := returned[2 * k] - index;
          var oldEnd := returned[2 * k + 1] - index;
          var newStart := |line| - 1 - oldEnd;
          var newEnd := |line| - 1 - oldStart;
          returned := returned[2 * k := newStart + 1][2 * k + 1 := newEnd + 1];
        }
      }
    }

    lemma PatchOne(l: Layout, n: nat, ps: seq<Piece>, front: Text, index: nat, q: int, a: int, b: int)
      requires Recorded(l, n, ps, index, q, a, b)
      ensures var line := front + Printed(l, ps);
              if a >= 0 then Delimits(l, n, ps, line, q, |line| - (b - index), |line| - (a - index))
              else Delimits(l, n, ps, line, q, a, b)
    {
      hide Dressed, Printed;
      if Appears(l, n, ps, q) {
        var j := n - 1 - q;
        PieceInPlace(l, ps, j);
        var t, d := |Printed(l, ps)| - Behind(l, ps, j), |Dressed(l, ps[j])|;
        Further(front, Printed(l, ps), t - d, t);
      }
    }
  }

  /** The state of the collecting loop. */
  ghost predicate Collected(tokens: seq<Text>, l: Layout, width: nat, start: int, ps: seq<Piece>, length: nat)
  {
    -1 <= start < |tokens| && |ps| == |tokens| - 1 - start && length == |Visible(l, ps)| <= width &&
    PiecesSoFar(tokens, l.sep, width, start, ps) &&
    (if length < width then Visible(l, ps) == Joined(tokens, l.sep, start + 1, |tokens|)
     else Visible(l, ps) == LastN(Joined(tokens, l.sep, start + 1, |tokens|), width) &&
          |Joined(tokens, l.sep, start + 1, |tokens|)| >= width) &&
    FirstUsed(tokens, |tokens|) <= start + 1
  }

  ghost predicate PiecesSoFar(tokens: seq<Text>, sep: Text, width: nat, start: int, ps: seq<Piece>) {
    |ps| == |tokens| - 1 - start && start >= -1 &&
    (forall j :: 0 <= j < |ps| ==> PieceOf(tokens, sep, width, j, ps[j])) &&
    forall q :: start < q < |tokens| ==> Reached(tokens, sep, width, q)
  }

  lemma OnePieceMore(tokens: seq<Text>, sep: Text, width: nat, start: nat, ps: seq<Piece>, p: Piece)
    requires start < |tokens| && PiecesSoFar(tokens, sep, width, start, ps)
    requires PieceOf(tokens, sep, width, |ps|, p) && Reached(tokens, sep, width, start)
    ensures PiecesSoFar(tokens, sep, width, start - 1, ps + [p])
  {
    hide PieceOf, Reached;
  }

  lemma CollectOne(tokens: seq<Text>, l: Layout, width: nat, start: nat, ps: seq<Piece>, length: nat, shown: Text)
    requires |l.sep| <= 1 && start < |tokens| && Collected(tokens, l, width, start, ps, length) && length < width
    requires tokens[start] != []
    requires var length' := length + if ps == [] then 0 else |l.sep|;
             shown == if |tokens[start]| + length' < width then tokens[start]
                      else tokens[start][|tokens[start]| - (width - length')..]
    ensures var length' := length + (if ps == [] then 0 else |l.sep|) + |shown|;
            Collected(tokens, l, width, start - 1, ps + [Piece(start, shown)], length')
  {
    var p := Piece(start, shown);
    var sep, t := if ps == [] then [] else l.sep, tokens[start];
    var v := Visible(l, ps);
    VisibleStep(l, ps, p);
    assert Joined(tokens, l.sep, start, |tokens|) == t + sep + v;
    hide Joined, Visible, FirstUsed, LastN, PiecesSoFar;
    LastOfThree(t, sep, v, width);
    OnePieceMore(tokens, l.sep, width, start, ps, p);
    UsedFrom(tokens, start);
  }

  lemma LastOfThree(t: Text, sep: Text, v: Text, width: nat)
    requires |sep| + |v| <= width
    ensures |t + sep + v| == |t| + |sep| + |v|
    ensures LastN(t + sep + v, width) == LastN(t, width - |sep| - |v|) + sep + v
    ensures LastN(t, width - |sep| - |v|) ==
            if |t| + |v| + |sep| < width then t else t[|t| - (width - (|v| + |sep|))..]
  {
  }

  lemma VisibleStep(l: Layout, ps: seq<Piece>, p: Piece)
    ensures Visible(l, ps + [p]) == p.shown + (if ps == [] then [] else l.sep) + Visible(l, ps)
  {
    assert (ps + [p])[..|ps|] == ps;
  }

  /** Where collecting stops, no further token would have been reached. */
  lemma AllCollected(tokens: seq<Text>, l: Layout, width: nat, start: int, ps: seq<Piece>, length: nat)
    requires Collected(tokens, l, width, start, ps, length)
    requires length == width || start == -1 || tokens[start] == []
    ensures PiecesOf(tokens, l.sep, width, ps)
  {
    hide Joined, Visible, PieceOf;
    var lo, n := FirstUsed(tokens, |tokens|), |tokens|;
    if length < width { StopsHere(tokens, start); }
    hide FirstUsed;
    forall q | lo <= q <= start ensures !Reached(tokens, l.sep, width, q) {
      JoinedSplit(tokens, l.sep, q + 1, start + 1, n);
    }
  }

  lemma {:induction false} UsedFrom(tokens: seq<Text>, start: nat)
    requires start < |tokens| && tokens[start] != [] && FirstUsed(tokens, |tokens|) <= start + 1
    ensures FirstUsed(tokens, |tokens|) <= start
  {
  }

  /** The context shows the last `width` characters of the blank-padded left tokens. */
  lemma ContextComplete(tokens: seq<Text>, l: Layout, width: nat, start: int, ps: seq<Piece>, length: nat)
    requires Collected(tokens, l, width, start, ps, length)
    requires length == width || start == -1 || tokens[start] == []
    ensures var all := Joined(tokens, l.sep, FirstUsed(tokens, |tokens|), |tokens|);
            Blanks(width - length) + Visible(l, ps) == LastN(Blanks(width) + all, width)
  {
    var lo, n := FirstUsed(tokens, |tokens|), |tokens|;
    var all, seen := Joined(tokens, l.sep, lo, n), Joined(tokens, l.sep, start + 1, n);
    hide Joined, Visible, LastN;
    if length < width {
      StopsHere(tokens, start);
      PaddedTail(all, width);
    } else {
      JoinedSplit(tokens, l.sep, lo, start + 1, n);
      var front: Text :| all == front + seen;
      FullTail(front, seen, Visible(l, ps), width);
    }
  }

  lemma StopsHere(tokens: seq<Text>, start: int)
    requires -1 <= start < |tokens| && FirstUsed(tokens, |tokens|) <= start + 1
    requires start == -1 || tokens[start] == []
    ensures FirstUsed(tokens, |tokens|) == start + 1
  {
    hide FirstUsed;
  }

  lemma FullTail(front: Text, seen: Text, v: Text, width: nat)
    requires |seen| >= width && v == LastN(seen, width)
    ensures Blanks(0) + v == LastN(Blanks(width) + (front + seen), width)
  {
    LastNBehind(Blanks(width) + front, seen, width);
    assert Blanks(width) + front + seen == Blanks(width) + (front + seen);
    assert Blanks(0) + v == v;
  }

  lemma PaddedTail(s: Text, width: nat)
    requires |s| <= width
    ensures Blanks(width - |s|) + s == LastN(Blanks(width) + s, width)
  {
    assert (Blanks(width) + s)[|s|..] == Blanks(width - |s|) + s;
  }

  /** The CHAR_CONTEXT branch; `tokens` are the tokens before the match.  The pieces shown are those
      of the tokens, and each pair of offsets is where the text of its token is printed. */
  method CharContext(k: KwicLine, tokens: seq<Text>, width: nat, l: Layout, wanted: seq<int>)
    returns (ghost ps: seq<Piece>)
    requires |l.sep| <= 1 && |k.returned| == 2 * |wanted| && forall j :: 0 <= j < |k.returned| ==> k.returned[j] == -1
    modifies k
    ensures PiecesOf(tokens, l.sep, width, ps)
    ensures var pad := width - |Visible(l, ps)|;
            pad >= 0 && k.line == old(k.line) + Blanks(pad) + Printed(l, ps) &&
            Blanks(pad) + Visible(l, ps) ==
            LastN(Blanks(width) + Joined(tokens, l.sep, FirstUsed(tokens, |tokens|), |tokens|), width)
    ensures |k.returned| == 2 * |wanted|
    ensures forall j :: 0 <= j < |wanted| ==>
              Delimits(l, |tokens|, ps, k.line, wanted[j], k.returned[2 * j], k.returned[2 * j + 1])
    ensures forall j :: 0 <= j < |wanted| ==>
              var q, from, to := wanted[j], k.returned[2 * j], k.returned[2 * j + 1];
              if |tokens| - |ps| <= q < |tokens| && l.before(q) + ps[|tokens| - 1 - q].shown + l.after(q) != []
              then 0 <= from <= to <= |k.line| && k.line[from..to] == l.before(q) + ps[|tokens| - 1 - q].shown + l.after(q)
              else from == -1 && to == -1
  {
    hide Rev, Joined, Visible, Raw, Printed, Recorded, Dressed, LastN, PiecesOf, Delimits, PieceOf;
    var length;
    ghost var start;
    var index := |k.line|;
    length, ps, start := Collect(k, tokens, width, l, wanted);
    ContextComplete(tokens, l, width, start, ps, length);
    AllCollected(tokens, l, width, start, ps, length);
    k.Pad(length, width);
    assert k.line[..index] == old(k.line) && k.line[index..] == Raw(l, ps) + Blanks(width - length);
    k.Srev(index);
    RevAppend(Raw(l, ps), Blanks(width - length));
    RevBlanks(width - length);
    RawReversed(l, ps);
    assert k.line == old(k.line) + Blanks(width - length) + Printed(l, ps);
    k.Patch(index, wanted, l, |tokens|, ps, old(k.line) + Blanks(width - length));
    ShownTexts(tokens, l, width, ps, k.line, wanted, k.returned);
  }

  lemma ShownTexts(tokens: seq<Text>, l: Layout, width: nat, ps: seq<Piece>, line: Text, wanted: seq<int>, returned: seq<int>)
    requires PiecesOf(tokens, l.sep, width, ps) && |returned| == 2 * |wanted|
    requires forall j :: 0 <= j < |wanted| ==> Delimits(l, |tokens|, ps, line, wanted[j], returned[2 * j], returned[2 * j + 1])
    ensures forall j :: 0 <= j < |wanted| ==>
              var q, from, to := wanted[j], returned[2 * j], returned[2 * j + 1];
              if |tokens| - |ps| <= q < |tokens| && l.before(q) + ps[|tokens| - 1 - q].shown + l.after(q) != []
              then 0 <= from <= to <= |line| && line[from..to] == l.before(q) + ps[|tokens| - 1 - q].shown + l.after(q)
              else from == -1 && to == -1
  {
    hide Printed, Behind;
    forall j | 0 <= j < |wanted|
      ensures var q, from, to := wanted[j], returned[2 * j], returned[2 * j + 1];
              if |tokens| - |ps| <= q < |tokens| && l.before(q) + ps[|tokens| - 1 - q].shown + l.after(q) != []
              then 0 <= from <= to <= |line| && line[from..to] == l.before(q) + ps[|tokens| - 1 - q].shown + l.after(q)
              else from == -1 && to == -1
    {
      var q := wanted[j];
      assert Delimits(l, |tokens|, ps, line, q, returned[2 * j], returned[2 * j + 1]);
      if |tokens| - |ps| <= q < |tokens| {
        var i := |tokens| - 1 - q;
        assert PieceOf(tokens, l.sep, width, i, ps[i]);
        assert Dressed(l, ps[i]) == l.before(q) + ps[i].shown + l.after(q);
      }
    }
  }

  lemma RevBlanks(n: nat)
    ensures Rev(Blanks(n)) == Blanks(n)
  {
    hide Rev;
  }

  /** The loop that collects tokens outwards from the match. */
  method Collect(k: KwicLine, tokens: seq<Text>, width: nat, l: Layout, wanted: seq<int>)
    returns (length: nat, ghost ps: seq<Piece>, ghost last: int)
    requires |l.sep| <= 1 && |k.returned| == 2 * |wanted| && forall j :: 0 <= j < |k.returned| ==> k.returned[j] == -1
    modifies k
    ensures Collected(tokens, l, width, last, ps, length)
    ensures length == width || last == -1 || tokens[last] == []
    ensures k.line == old(k.line) + Raw(l, ps)
    ensures k.AllRecorded(l, |tokens|, ps, |old(k.line)|, wanted)
  {
    hide Rev, Joined, LastN;
    var index := |k.line|;
    length, ps := 0, [];
    var enough := false;
    var start := |tokens| - 1;
    last := start;
    assert Joined(tokens, l.sep, |tokens|, |tokens|) == [] by { NothingJoined(tokens, l.sep, width); }
    NothingJoined(tokens, l.sep, width);
    while start >= 0 && !enough
      invariant -1 <= start <= last < |tokens| && (!enough ==> start == last)
      invariant Collected(tokens, l, width, last, ps, length)
      invariant enough ==> length == width || (last >= 0 && tokens[last] == [])
      invariant index <= |k.line| && k.line[..index] == old(k.line) && k.line[index..] == Raw(l, ps)
      invariant (ps != [] <==> |k.line| > index) && k.AllRecorded(l, |tokens|, ps, index, wanted)
      decreases start + 1
    {
      if length >= width {
        enough := true;
      } else if |tokens[start]| > 0 {
        var token := tokens[start];
        var added := if |k.line| > index then |l.sep| else 0;
        var shown := if |token| + (length + added) < width then token
                     else token[|token| - (width - (length + added))..];
        CollectOne(tokens, l, width, start, ps, length, shown);
        k.AddPiece(l, |tokens|, index, start, shown, wanted, ps);
        ps := ps + [Piece(start, shown)];
        length := length + added + |shown|;
        last := start - 1;
      } else {
        enough := true;
      }
      start := start - 1;
    }
  }

  lemma NothingJoined(tokens: seq<Text>, sep: Text, width: nat)
    ensures Joined(tokens, sep, |tokens|, |tokens|) == [] && LastN([], width) == []
  {
  }
}
