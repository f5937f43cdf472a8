/** Reading the positions of an id (cl/cdaccess.c) from the plain or the compressed inverted index,
    and writing the compressed one (utils/cwb-compress-rdx.c). */
module Postings {
  import opened BitIO
  import opened Golomb
  import opened MakeComps

  // ----- gap coding

  /** `s` is ascending and starts at or above `last`. */
  predicate Ascending(last: int, s: seq<int>)
  {
    (s != [] ==> last <= s[0]) && forall j, k :: 0 <= j < k < |s| ==> s[j] <= s[k]
  }

  /** The codes of the gaps in `s`, the first one counted from `last`. */
  function GapBits(last: int, s: seq<int>, b: nat): Bits
    requires b >= 2 && Ascending(last, s)
    decreases |s|
  {
    if s == [] then [] else Code(s[0] - last, b) + GapBits(s[0], s[1..], b)
  }

  /** A list is coded from front to back: one more position adds the code of its distance from the
      last one, or from `last` at the beginning. */
  lemma {:induction false} GapsAppend(last: int, s: seq<int>, p: int, b: nat)
    requires b >= 2 && Ascending(last, s + [p])
    ensures GapBits(last, [], b) == [] && Ascending(last, s)
    ensures var from := if s == [] then last else s[|s| - 1];
            from <= p && GapBits(last, s + [p], b) == GapBits(last, s, b) + Code(p - from, b)
    decreases |s|
  {
    hide Code, GapBits;
    AscendingFront(last, s, p);
    NoGaps(last, b);
    FirstGapOf(last, s + [p], b);
    if s == [] {
      assert (s + [p])[1..] == [];
      NoGaps(p, b);
    } else {
      assert (s + [p])[1..] == s[1..] + [p];
      GapsAppend(s[0], s[1..], p, b);
      FirstGapOf(last, s, b);
    }
  }

  lemma AscendingFront(last: int, s: seq<int>, p: int)
    requires Ascending(last, s + [p])
    ensures Ascending(last, s) && (if s == [] then last else s[|s| - 1]) <= p
  {
    assert forall i :: 0 <= i < |s| ==> (s + [p])[i] == s[i];
    assert (s + [p])[|s|] == p;
  }

  lemma NoGaps(last: int, b: nat)
    requires b >= 2
    ensures GapBits(last, [], b) == []
  {
  }

  lemma FirstGapOf(last: int, s: seq<int>, b: nat)
    requires b >= 2 && s != [] && Ascending(last, s)
    ensures last <= s[0] && Ascending(s[0], s[1..])
    ensures GapBits(last, s, b) == Code(s[0] - last, b) + GapBits(s[0], s[1..], b)
  {
    hide Code;
  }

  lemma PositionsAscend(ids: seq<int>, id: int)
    ensures Ascending(0, Positions(ids, id))
  {
    var ps := Positions(ids, id);
    if ps != [] { assert ps[0] in ps; }
  }

  predicate Fits(b: nat)
  {
    b >= 2 && Pow2(CeilLog2(b)) <= Pow2(32)
  }

  /** The gap codes of a list start at a byte offset of the file. */
  ghost predicate GapsAt(file: seq<Byte>, offset: nat, list: seq<int>, b: nat)
  {
    b >= 2 && offset <= |file| && Ascending(0, list) && GapBits(0, list, b) <= BytesBits(file[offset..])
  }

  /** The bytes `from .. to - 1` hold the gap codes of a list, padded with zeros to whole bytes. */
  ghost predicate LaidOut(file: seq<Byte>, from: int, to: int, list: seq<int>, b: nat)
  {
    b >= 2 && 0 <= from <= to <= |file| && Ascending(0, list) &&
    var pad := 8 * (to - from) - |GapBits(0, list, b)|;
    0 <= pad < 8 && BytesBits(file[from..to]) == GapBits(0, list, b) + Zeros(pad)
  }

  /** Where the part that starts at `offsets[j]` ends. */
  function EndOf(offsets: seq<int>, j: nat, size: nat): int
  {
    if j + 1 < |offsets| then offsets[j + 1] else size
  }

  lemma LaidOutStays(file: seq<Byte>, longer: seq<Byte>, from: int, to: int, list: seq<int>, b: nat)
    requires LaidOut(file, from, to, list, b) && file <= longer
    ensures LaidOut(longer, from, to, list, b)
  {
    assert longer[from..to] == file[from..to];
  }

  lemma GapsStay(file: seq<Byte>, longer: seq<Byte>, offset: nat, list: seq<int>, b: nat)
    requires GapsAt(file, offset, list, b) && file <= longer
    ensures GapsAt(longer, offset, list, b)
  {
    assert longer[offset..] == file[offset..] + longer[|file|..];
    BytesAppend(file[offset..], longer[|file|..]);
  }

  // ----- attributes

  datatype Index =
    | Plain(revcorp: seq<int>, revcidx: seq<int>)
    | Compressed(crc: seq<Byte>, crx: seq<int>)

  /** What the readers see of a positional attribute; `ba(id)` is compute_ba for its frequency. */
  datatype Attribute = Attribute(size: int, freqs: seq<int>, ba: nat -> nat, index: Index)

  /** The index components hold the positions of every id of the corpus `ids`. */
  ghost predicate Stores(a: Attribute, ids: seq<int>)
  {
    a.size == |ids| && InRange(ids, |a.freqs|) && CountsOf(a.freqs, ids) &&
    match a.index
    case Plain(revcorp, revcidx) =>
      |revcidx| == |a.freqs| &&
      forall id :: 0 <= id < |a.freqs| ==>
        0 <= revcidx[id] <= revcidx[id] + a.freqs[id] <= |revcorp| &&
        revcorp[revcidx[id]..revcidx[id] + a.freqs[id]] == Positions(ids, id)
    case Compressed(crc, crx) =>
      |crx| == |a.freqs| &&
      forall id :: 0 <= id < |a.freqs| ==>
        crx[id] >= 0 && GapsAt(crc, crx[id], Positions(ids, id), a.ba(id))
  }

  // ----- restrictor lists

  datatype Range = Range(start: int, end: int)

  ghost predicate InSome(p: int, rs: seq<Range>)
  {
    exists k :: 0 <= k < |rs| && rs[k].start <= p <= rs[k].end
  }

  /** The positions inside some range; an empty restrictor list restricts nothing. */
  ghost function Keep(s: seq<int>, rs: seq<Range>): seq<int>
  {
    if s == [] then []
    else
      var p := s[|s| - 1];
      Keep(s[..|s| - 1], rs) + if rs == [] || InSome(p, rs) then [p] else []
  }

  /** What is kept: exactly the positions inside some range, or all if there is none, in their order. */
  lemma {:induction false} KeepExact(s: seq<int>, rs: seq<Range>)
    ensures forall p :: p in Keep(s, rs) <==>
              p in s && (rs == [] || exists k :: 0 <= k < |rs| && rs[k].start <= p <= rs[k].end)
  {
    if s != [] {
      var t, p := s[..|s| - 1], s[|s| - 1];
      KeepExact(t, rs);
      assert s == t + [p];
    }
  }

  lemma {:induction false} KeepAscends(s: seq<int>, rs: seq<Range>)
    requires forall i, j :: 0 <= i < j < |s| ==> s[i] < s[j]
    ensures forall i, j :: 0 <= i < j < |Keep(s, rs)| ==> Keep(s, rs)[i] < Keep(s, rs)[j]
  {
    if s != [] {
      var t, p := s[..|s| - 1], s[|s| - 1];
      KeepAscends(t, rs);
      KeepExact(t, rs);
      forall i | 0 <= i < |Keep(t, rs)| ensures Keep(t, rs)[i] < p {
        var q := Keep(t, rs)[i];
        assert q in Keep(t, rs) && q in t;
        var k :| 0 <= k < |t| && t[k] == q;
        assert s[k] < s[|s| - 1];
      }
    }
  }

  predicate SortedByStart(rs: seq<Range>)
  {
    forall j, k :: 0 <= j < k < |rs| ==> rs[j].start <= rs[k].start
  }

  /** All ranges before `r` end before `p`. */
  predicate Passed(rs: seq<Range>, r: nat, p: int)
  {
    r <= |rs| && forall k :: 0 <= k < r ==> rs[k].end < p
  }

  lemma KeepStep(s: seq<int>, n: nat, rs: seq<Range>)
    requires n < |s|
    ensures Keep(s[..n + 1], rs) == Keep(s[..n], rs) + if rs == [] || InSome(s[n], rs) then [s[n]] else []
  {
    assert s[..n + 1][..n] == s[..n];
  }

  lemma {:induction false} KeepNone(s: seq<int>, n: nat, rs: seq<Range>)
    requires n <= |s| && rs != [] && forall k :: n <= k < |s| ==> !InSome(s[k], rs)
    ensures Keep(s, rs) == Keep(s[..n], rs)
    decreases |s|
  {
    assert s[..|s|] == s;
    if n < |s| {
      var m := |s| - 1;
      KeepStep(s, m, rs);
      KeepNone(s[..m], n, rs);
      assert s[..m][..n] == s[..n];
    }
  }

  lemma {:induction false} KeepAll(s: seq<int>)
    ensures Keep(s, []) == s
  {
    if s != [] {
      KeepAll(s[..|s| - 1]);
      assert s == s[..|s| - 1] + [s[|s| - 1]];
    }
  }

  lemma {:induction false} KeepLength(s: seq<int>, rs: seq<Range>)
    ensures |Keep(s, rs)| <= |s|
  {
    if s != [] { KeepLength(s[..|s| - 1], rs); }
  }

  /** Only the first range that does not end before `p` matters. */
  lemma FirstRangeDecides(p: int, rs: seq<Range>, r: nat)
    requires SortedByStart(rs) && Passed(rs, r, p)
    requires r < |rs| ==> p <= rs[r].end
    ensures InSome(p, rs) <==> r < |rs| && rs[r].start <= p
  {
    if InSome(p, rs) {
      var k :| 0 <= k < |rs| && rs[k].start <= p <= rs[k].end;
      assert r <= k;
    }
  }

  /** The filter inside the decoding loop of the compressed branch. */
  method FilterInline(p: int, rs: seq<Range>, r: nat) returns (keep: bool, r': nat)
    requires SortedByStart(rs) && Passed(rs, r, p)
    ensures r <= r' && Passed(rs, r', p)
    ensures keep <==> rs == [] || InSome(p, rs)
  {
    r' := r;
    if |rs| == 0 { return true, r'; }
    while r' < |rs| && p > rs[r'].end
      invariant r <= r' && Passed(rs, r', p)
    {
      r' := r' + 1;
    }
    FirstRangeDecides(p, rs, r');
    keep := r' < |rs| && rs[r'].start <= p <= rs[r'].end;
  }

  /** The two-pointer filter of the plain branch, in place. */
  method FilterInPlace(buffer: array<int>, freq: nat, rs: seq<Range>) returns (n: nat)
    requires freq == buffer.Length && rs != [] && SortedByStart(rs)
    requires forall j, k :: 0 <= j < k < freq ==> buffer[j] <= buffer[k]
    modifies buffer
    ensures n <= freq && buffer[..n] == Keep(old(buffer[..]), rs)
  {
    hide Keep, InSome;
    ghost var s := buffer[..];
    var r, i := 0, 0;
    n := 0;
    EmptyKeep(rs, s[..0]);
    while i < freq && r < |rs|
      invariant n <= i <= freq && buffer[..n] == Keep(s[..i], rs) && buffer[i..] == s[i..]
      invariant r <= |rs| && (i < freq ==> Passed(rs, r, s[i]))
      decreases freq - i + |rs| - r
    {
      assert buffer[i] == buffer[i..][0] == s[i];
      if buffer[i] < rs[r].start {
        NotYet(s[i], rs, r);
        KeepStep(s, i, rs);
        i := i + 1;
      } else if buffer[i] > rs[r].end {
        r := r + 1;
      } else {
        FirstRangeDecides(s[i], rs, r);
        KeepStep(s, i, rs);
        ghost var kept := buffer[..n];
        buffer[n] := buffer[i];
        assert buffer[..n + 1] == kept + [s[i]];
        n, i := n + 1, i + 1;
      }
    }
    if i < freq {
      forall k | i <= k < |s| ensures !InSome(s[k], rs) {
        FirstRangeDecides(s[k], rs, r);
      }
      KeepNone(s, i, rs);
    } else {
      assert s[..i] == s;
    }
  }

  lemma EmptyKeep(rs: seq<Range>, s: seq<int>)
    requires s == []
    ensures Keep(s, rs) == []
  {
  }

  lemma NotYet(p: int, rs: seq<Range>, r: nat)
    requires SortedByStart(rs) && Passed(rs, r, p) && r < |rs| && p < rs[r].start
    ensures !InSome(p, rs)
  {
  }

  // ----- cl_id2cpos_oldstyle

  datatype Answer = NoData | IdOutOfRange | Found(positions: seq<int>)

  lemma NoIdsNoCorpus(ids: seq<int>, lexsize: nat)
    requires InRange(ids, lexsize)
    ensures |ids| > 0 ==> lexsize > 0
  {
    if |ids| > 0 { assert 0 <= ids[0] < lexsize; }
  }

  lemma FirstGap(last: int, s: seq<int>, b: nat, tail: Bits)
    requires b >= 2 && Ascending(last, s) && s != []
    ensures GapBits(last, s, b) + tail == Code(s[0] - last, b) + (GapBits(s[0], s[1..], b) + tail)
  {
  }

  method DecodeGaps(bs: BStream, b: nat, rs: seq<Range>, freq: nat, ghost list: seq<int>, ghost tail: Bits)
    returns (kept: seq<int>)
    requires bs.Valid() && b >= 2 && Ascending(0, list) && freq == |list|
    requires bs.Rest() == GapBits(0, list, b) + tail && SortedByStart(rs)
    modifies bs
    ensures kept == Keep(list, rs) && bs.Valid() && bs.Rest() == tail
  {
    hide BStream.Rest, Keep, InSome, Code;
    kept := [];
    var lastPos, r := 0, 0;
    EmptyKeep(rs, list[..0]);
    assert list[0..] == list;
    for i := 0 to freq
      invariant bs.Valid() && Ascending(lastPos, list[i..])
      invariant bs.Rest() == GapBits(lastPos, list[i..], b) + tail
      invariant kept == Keep(list[..i], rs) && Passed(rs, r, lastPos)
    {
      assert list[i..][1..] == list[i + 1..] && list[i..][0] == list[i];
      ghost var rest := GapBits(list[i], list[i + 1..], b) + tail;
      FirstGap(lastPos, list[i..], b, tail);
      var gap := ReadGolombCode(b, bs, list[i] - lastPos, rest);
      lastPos := lastPos + gap;
      var keep;
      keep, r := FilterInline(lastPos, rs, r);
      KeepStep(list, i, rs);
      if keep { kept := kept + [lastPos]; }
    }
    assert list[..freq] == list;
    assert [] + tail == tail;
  }

  /** Both storage forms deliver the same positions: those of the id inside the restrictor list. */
  method Id2Cpos(a: Attribute, id: int, restrictor: seq<Range>, ghost ids: seq<int>) returns (r: Answer)
    requires Stores(a, ids) && SortedByStart(restrictor)
    ensures |ids| == 0 ==> r == NoData
    ensures |ids| > 0 ==> r == if 0 <= id < |a.freqs| then Found(Keep(Positions(ids, id), restrictor)) else IdOutOfRange
  {
    hide PositionsBelow, Keep, GapBits, BytesBits, InSome;
    if a.size <= 0 || |a.freqs| <= 0 {
      NoIdsNoCorpus(ids, |a.freqs|);
      return NoData;
    }
    if id < 0 || id >= |a.freqs| { return IdOutOfRange; }
    var freq := a.freqs[id];
    ghost var list := Positions(ids, id);
    match a.index
    case Compressed(crc, crx) =>
      var b := a.ba(id);
      assert GapsAt(crc, crx[id], list, b);
      var bs := new BStream(crc);
      bs.Seek(crx[id]);
      ghost var bits := BytesBits(crc[crx[id]..]);
      assert bits == GapBits(0, list, b) + bits[|GapBits(0, list, b)|..];
      var kept := DecodeGaps(bs, b, restrictor, freq, list, bits[|GapBits(0, list, b)|..]);
      return Found(kept);
    case Plain(revcorp, revcidx) =>
      var slice := revcorp[revcidx[id]..revcidx[id] + freq];
      assert slice == list;
      PositionsAscend(ids, id);
      if restrictor == [] {
        KeepAll(list);
        return Found(slice);
      }
      var buffer := new int[freq](i requires 0 <= i < |slice| => slice[i]);
      assert buffer[..] == list;
      var n := FilterInPlace(buffer, freq, restrictor);
      return Found(buffer[..n]);
  }

  // ----- position streams

  /** PositionStreamRecord; `list` and `tail` are what is still to be read from the components. */
  class PositionStream {
    const id: nat
    const idFreq: nat
    const isCompressed: bool
    var nrItems: nat
    // compressed streams
    const bs: BStream
    const b: nat
    var lastPos: int
    // plain streams
    const base: seq<int>
    ghost const list: seq<int>
    ghost const tail: Bits

    ghost predicate Valid()
      reads this, bs
    {
      nrItems <= idFreq == |list| && Ascending(0, list) &&
      if isCompressed then
        bs.Valid() && b >= 2 && Ascending(lastPos, list[nrItems..]) &&
        bs.Rest() == GapBits(lastPos, list[nrItems..], b) + tail
      else |list| <= |base| && base[..|list|] == list
    }

    /** The positions not yet delivered. */
    ghost function Left(): seq<int>
      requires Valid()
      reads this, bs
    {
      list[nrItems..]
    }

    /** cl_new_stream for an id in range. */
    constructor (a: Attribute, id: nat, ghost ids: seq<int>)
      requires Stores(a, ids) && id < |a.freqs|
      ensures Valid() && Left() == Positions(ids, id) && fresh(bs)
    {
      var freq := a.freqs[id];
      this.id := id;
      idFreq := freq;
      nrItems := 0;
      lastPos := 0;
      list := Positions(ids, id);
      isCompressed := a.index.Compressed?;
      var stream;
      match a.index {
        case Compressed(crc, crx) =>
          stream := new BStream(crc);
          b := a.ba(id);
          base := [];
          assert GapsAt(crc, crx[id], Positions(ids, id), a.ba(id));
          tail := BytesBits(crc[crx[id]..])[|GapBits(0, Positions(ids, id), a.ba(id))|..];
        case Plain(revcorp, revcidx) =>
          stream := new BStream([]);
          b := 0;
          base := revcorp[revcidx[id]..];
          tail := [];
      }
      bs := stream;
      new;
      PositionsAscend(ids, id);
      assert list[0..] == list;
      if isCompressed {
        bs.Seek(a.index.crx[id]);
      } else {
        var revcorp, from := a.index.revcorp, a.index.revcidx[id];
        assert revcorp[from..][..freq] == revcorp[from..from + freq];
      }
    }

    /** cl_read_stream: delivers as many of the next positions as fit. */
    method Read(buffer: array<int>, bufferSize: nat) returns (n: nat)
      requires Valid() && bufferSize <= buffer.Length
      modifies this`nrItems, this`lastPos, bs, buffer
      ensures Valid() && n == (if bufferSize < |old(Left())| then bufferSize else |old(Left())|)
      ensures buffer[..n] == old(Left())[..n] && Left() == old(Left())[n..]
      ensures buffer[n..] == old(buffer[n..])
    {
      hide GapBits, BStream.Rest, Ascending;
      n := 0;
      ghost var left := Left();
      assert left[..0] == [] && left[0..] == left && buffer[0..] == buffer[..];
      if nrItems >= idFreq { return; }
      var items := if nrItems + bufferSize > idFreq then idFreq - nrItems else bufferSize;
      if items == 0 { return; }
      if isCompressed { ReadCompressed(buffer, items); } else { ReadPlain(buffer, items); }
      n := items;
    }

    method ReadCompressed(buffer: array<int>, items: nat)
      requires Valid() && isCompressed && items <= buffer.Length && items <= |Left()|
      modifies this`nrItems, this`lastPos, bs, buffer
      ensures Valid() && buffer[..items] == old(Left())[..items] && Left() == old(Left())[items..]
      ensures buffer[items..] == old(buffer[items..])
    {
      hide GapBits, BStream.Rest, Ascending;
      ghost var from, rest := nrItems, buffer[..];
      for i := 0 to items
        invariant Valid() && nrItems == from + i
        invariant buffer[..i] == list[from..from + i] && buffer[i..] == rest[i..]
      {
        var gap := NextGap();
        lastPos := lastPos + gap;
        nrItems := nrItems + 1;
        buffer[i] := lastPos;
        assert buffer[..i + 1] == buffer[..i] + [list[from + i]];
        assert buffer[i + 1..] == rest[i + 1..];
      }
      assert list[from..][..items] == list[from..from + items];
      assert list[from..][items..] == list[from + items..];
    }

    method ReadPlain(buffer: array<int>, items: nat)
      requires Valid() && !isCompressed && items <= buffer.Length && items <= |Left()|
      modifies this`nrItems, buffer
      ensures Valid() && buffer[..items] == old(Left())[..items] && Left() == old(Left())[items..]
      ensures buffer[items..] == old(buffer[items..])
    {
      hide Ascending;
      var from := nrItems;
      ghost var rest := buffer[..];
      for i := 0 to items
        invariant Valid() && nrItems == from
        invariant buffer[..i] == list[from..from + i] && buffer[i..] == rest[i..]
      {
        assert base[from + i] == base[..|list|][from + i];
        buffer[i] := base[from + i];
        assert buffer[..i + 1] == buffer[..i] + [list[from + i]];
        assert buffer[i + 1..] == rest[i + 1..];
      }
      nrItems := nrItems + items;
      assert list[from..][..items] == list[from..from + items];
      assert list[from..][items..] == list[from + items..];
    }

    /** One code of a compressed stream. */
    method NextGap() returns (gap: nat)
      requires Valid() && isCompressed && nrItems < idFreq
      modifies bs
      ensures bs.Valid() && lastPos + gap == list[nrItems] && Ascending(list[nrItems], list[nrItems + 1..])
      ensures bs.Rest() == GapBits(list[nrItems], list[nrItems + 1..], b) + tail
    {
      hide BStream.Rest, Code;
      ghost var left := list[nrItems..];
      assert left[0] == list[nrItems] && left[1..] == list[nrItems + 1..];
      ghost var rest := GapBits(left[0], left[1..], b) + tail;
      assert GapBits(lastPos, left, b) + tail == Code(left[0] - lastPos, b) + rest;
      gap := ReadGolombCode(b, bs, left[0] - lastPos, rest);
    }
  }

  function Sum(s: seq<nat>): nat
  {
    if s == [] then 0 else s[0] + Sum(s[1..])
  }

  /** However the reads are split up, together they deliver the front of the position list, and all
      of it once they ask for enough. */
  method ReadInChunks(a: Attribute, id: nat, chunks: seq<nat>, ghost ids: seq<int>) returns (all: seq<int>)
    requires Stores(a, ids) && id < |a.freqs|
    ensures all <= Positions(ids, id)
    ensures |all| == if Sum(chunks) < |Positions(ids, id)| then Sum(chunks) else |Positions(ids, id)|
  {
    hide *;
    ghost var list := Positions(ids, id);
    var ps := new PositionStream(a, id, ids);
    all := [];
    assert chunks[0..] == chunks;
    NoChunks();
    for k := 0 to |chunks|
      invariant ps.Valid() && fresh(ps) && fresh(ps.bs) && list == all + ps.Left()
      invariant var total := |all| + Sum(chunks[k..]);
                if Sum(chunks) < |list| then total == Sum(chunks) else total >= |list|
    {
      FirstChunk(chunks, k);
      var buffer := new int[chunks[k]];
      ghost var left := ps.Left();
      var n := ps.Read(buffer, chunks[k]);
      assert left == left[..n] + left[n..];
      all := all + buffer[..n];
    }
    assert chunks[|chunks|..] == [];
  }

  lemma NoChunks()
    ensures Sum([]) == 0
  {
  }

  lemma FirstChunk(chunks: seq<nat>, k: nat)
    requires k < |chunks|
    ensures Sum(chunks[k..]) == chunks[k] + Sum(chunks[k + 1..])
  {
    assert chunks[k..][1..] == chunks[k + 1..];
  }

  // ----- compress_reversed_index

  /** One position at a time. */
  method NextPosition(ps: PositionStream, buffer: array<int>) returns (ok: bool)
    requires ps.Valid() && buffer.Length == 1 && ps.Left() != []
    modifies ps`nrItems, ps`lastPos, ps.bs, buffer
    ensures ok && ps.Valid() && buffer[0] == old(ps.Left())[0] && ps.Left() == old(ps.Left())[1..]
  {
    hide PositionStream.Valid, PositionStream.Left;
    ghost var left := ps.Left();
    var n := ps.Read(buffer, 1);
    assert buffer[0] == buffer[..1][0] == left[..1][0];
    ok := n == 1;
  }

  /** The loop over the positions of one id, which are read from a stream one by one. */
  method WriteGaps(bf: BFile, ps: PositionStream, freq: nat, b: nat, ghost list: seq<int>) returns (ok: bool)
    requires bf.Valid() && ps.Valid() && Fits(b) && ps.Left() == list && freq == |list| && Ascending(0, list)
    modifies bf, ps`nrItems, ps`lastPos, ps.bs
    ensures ok && bf.Valid() && old(bf.file) <= bf.file && bf.Written() == old(bf.Written()) + GapBits(0, list, b)
  {
    hide BFile.Written, Code, CeilLog2, Pow2, PositionStream.Valid, PositionStream.Left, BStream.Rest, GapBits, Ascending;
    var lastPos := 0;
    var newPos := new int[1](_ => 0);
    ghost var w := bf.Written();
    assert list[0..] == list;
    for k := 0 to freq
      invariant bf.Valid() && ps.Valid() && old(bf.file) <= bf.file && Ascending(lastPos, list[k..])
      invariant ps.Left() == list[k..]
      invariant w + GapBits(0, list, b) == bf.Written() + GapBits(lastPos, list[k..], b)
    {
      ghost var before, left := bf.Written(), list[k..];
      assert left != [] && left[0] == list[k] && left[1..] == list[k + 1..];
      NextGapBits(lastPos, left, b, before);
      ok := NextPosition(ps, newPos);
      if !ok { return; }
      var gap := newPos[0] - lastPos;
      WriteGolombCode(gap, b, bf);
      lastPos := newPos[0];
    }
    assert list[freq..] == [];
    assert bf.Written() + GapBits(lastPos, [], b) == bf.Written() by { NoGapBits(lastPos, b, bf.Written()); }
    ok := true;
  }

  lemma NextGapBits(last: int, s: seq<int>, b: nat, before: Bits)
    requires b >= 2 && Ascending(last, s) && s != []
    ensures s[0] >= last && Ascending(s[0], s[1..])
    ensures before + GapBits(last, s, b) == before + Code(s[0] - last, b) + GapBits(s[0], s[1..], b)
  {
    hide Code;
    assert before + (Code(s[0] - last, b) + GapBits(s[0], s[1..], b)) ==
           before + Code(s[0] - last, b) + GapBits(s[0], s[1..], b);
  }

  lemma NoGapBits(last: int, b: nat, before: Bits)
    requires b >= 2
    ensures Ascending(last, []) && before + GapBits(last, [], b) == before
  {
  }

  /** compress_reversed_index: the gap codes of every id, and the byte offsets at which they start.
      The tool gives up on an id that does not occur.  What it writes stores the same corpus. */
  method CompressIndex(a: Attribute, ghost ids: seq<int>) returns (ok: bool, c: Attribute)
    requires Stores(a, ids) && forall id :: 0 <= id < |a.freqs| ==> Fits(a.ba(id))
    ensures ok <==> forall id :: 0 <= id < |a.freqs| ==> a.freqs[id] != 0
    ensures ok ==> c.index.Compressed? && c == a.(index := c.index) && Stores(c, ids)
    ensures ok ==> |c.index.crx| == |a.freqs| && (a.freqs != [] ==> c.index.crx[0] == 0)
    ensures ok ==> forall id :: 0 <= id < |a.freqs| ==>
              LaidOut(c.index.crc, c.index.crx[id], EndOf(c.index.crx, id, |c.index.crc|), Positions(ids, id), a.ba(id))
  {
    hide BFile.Written, CeilLog2, Pow2, Stores, Positions, PartsWritten;
    var bf := new BFile();
    var offsets: seq<int> := [];
    c := a;
    NoPartYet(a, ids);
    for id := 0 to |a.freqs|
      invariant bf.Valid() && bf.bitsInBuf == 0 && fresh(bf)
      invariant |offsets| == id && forall j :: 0 <= j < id ==> a.freqs[j] != 0
      invariant PartsWritten(a, ids, bf.file, offsets)
    {
      if a.freqs[id] == 0 { return false, a; }
      ghost var before := bf.file;
      var fpos := bf.position;
      var written := WriteOne(a, id, bf, ids);
      if !written { return false, a; }
      OnePartMore(a, ids, before, bf.file, offsets);
      offsets := offsets + [fpos];
    }
    c := a.(index := Compressed(bf.file, offsets));
    AllParts(a, c, ids);
    ok := true;
  }

  /** The first ids are written: their parts follow each other without a gap. */
  ghost predicate PartsWritten(a: Attribute, ids: seq<int>, file: seq<Byte>, offsets: seq<int>)
  {
    |offsets| <= |a.freqs| && (if offsets == [] then file == [] else offsets[0] == 0) &&
    forall j :: 0 <= j < |offsets| ==>
      offsets[j] >= 0 && GapsAt(file, offsets[j], Positions(ids, j), a.ba(j)) &&
      LaidOut(file, offsets[j], EndOf(offsets, j, |file|), Positions(ids, j), a.ba(j))
  }

  lemma NoPartYet(a: Attribute, ids: seq<int>)
    ensures PartsWritten(a, ids, [], [])
  {
  }

  lemma OnePartMore(a: Attribute, ids: seq<int>, file: seq<Byte>, longer: seq<Byte>, offsets: seq<int>)
    requires PartsWritten(a, ids, file, offsets) && |offsets| < |a.freqs| && file <= longer
    requires GapsAt(longer, |file|, Positions(ids, |offsets|), a.ba(|offsets|))
    requires LaidOut(longer, |file|, |longer|, Positions(ids, |offsets|), a.ba(|offsets|))
    ensures PartsWritten(a, ids, longer, offsets + [|file|])
  {
    hide GapsAt, LaidOut, Positions;
    var later := offsets + [|file|];
    forall j | 0 <= j < |later|
      ensures later[j] >= 0 && GapsAt(longer, later[j], Positions(ids, j), a.ba(j)) &&
              LaidOut(longer, later[j], EndOf(later, j, |longer|), Positions(ids, j), a.ba(j))
    {
      if j < |offsets| {
        GapsStay(file, longer, offsets[j], Positions(ids, j), a.ba(j));
        LaidOutStays(file, longer, offsets[j], EndOf(offsets, j, |file|), Positions(ids, j), a.ba(j));
      }
    }
  }

  lemma AllParts(a: Attribute, c: Attribute, ids: seq<int>)
    requires Stores(a, ids) && c.index.Compressed? && c == a.(index := c.index) && |c.index.crx| == |a.freqs|
    requires PartsWritten(a, ids, c.index.crc, c.index.crx)
    ensures Stores(c, ids) && (a.freqs != [] ==> c.index.crx[0] == 0)
    ensures forall id :: 0 <= id < |a.freqs| ==>
              LaidOut(c.index.crc, c.index.crx[id], EndOf(c.index.crx, id, |c.index.crc|), Positions(ids, id), a.ba(id))
  {
    hide GapsAt, LaidOut, Positions, Stores;
    CompressedStores(a, c, ids);
  }

  lemma CompressedStores(a: Attribute, c: Attribute, ids: seq<int>)
    requires Stores(a, ids) && c.index.Compressed? && c == a.(index := c.index) && |c.index.crx| == |a.freqs|
    requires forall j :: 0 <= j < |a.freqs| ==>
               c.index.crx[j] >= 0 && GapsAt(c.index.crc, c.index.crx[j], Positions(ids, j), a.ba(j))
    ensures Stores(c, ids)
  {
    hide GapsAt, Positions;
  }

  /** The codes of one id, padded to a whole number of bytes. */
  method WriteOne(a: Attribute, id: nat, bf: BFile, ghost ids: seq<int>) returns (ok: bool)
    requires Stores(a, ids) && id < |a.freqs| && Fits(a.ba(id)) && bf.Valid() && bf.bitsInBuf == 0
    modifies bf
    ensures ok && bf.Valid() && bf.bitsInBuf == 0 && old(bf.file) <= bf.file
    ensures GapsAt(bf.file, old(bf.position), Positions(ids, id), a.ba(id))
    ensures LaidOut(bf.file, old(|bf.file|), |bf.file|, Positions(ids, id), a.ba(id))
  {
    hide BytesBits, GapBits, CeilLog2, Pow2, BitsOf, Positions, PositionStream.Valid, PositionStream.Left;
    ghost var start, list, b := bf.file, Positions(ids, id), a.ba(id);
    PositionsAscend(ids, id);
    NoBits(bf.buf);
    assert bf.Written() == BytesBits(start) by { assert BytesBits(start) + [] == BytesBits(start); }
    var ps := new PositionStream(a, id, ids);
    ok := WriteGaps(bf, ps, a.freqs[id], a.ba(id), list);
    ghost var w := bf.Written();
    assert w == BytesBits(start) + GapBits(0, list, b);
    bf.Flush();
    assert bf.file == start + bf.file[|start|..];
    BytesAppend(start, bf.file[|start|..]);
    assert w <= BytesBits(bf.file);
    PrefixRest(BytesBits(start), GapBits(0, list, b), BytesBits(bf.file[|start|..]));
    RestPadded(BytesBits(start), GapBits(0, list, b), BytesBits(bf.file[|start|..]), 8 * |bf.file| - |w|);
    assert bf.file[|start|..|bf.file|] == bf.file[|start|..];
  }

  // ----- from the corpus to both forms of the index and back

  /** The plain index of any corpus, built under any memory limit. */
  method PlainAttribute(corpus: seq<int>, lexsize: nat, bufsize: nat, memoryLimit: int, ba: nat -> nat)
    returns (a: Attribute)
    requires InRange(corpus, lexsize) && bufsize > 0
    ensures Stores(a, corpus) && |a.freqs| == lexsize && a.ba == ba && a.index.Plain?
  {
    hide Positions;
    var freqs, file, index := MakeIndex(corpus, lexsize, bufsize, memoryLimit);
    a := Attribute(|corpus|, freqs, ba, Plain(file, index));
  }

  /** Compressing the index of a corpus in which every id occurs changes nothing for the readers: for
      any id, restrictor list and split into reads, both forms give the same positions. */
  method IndexRoundTrip(corpus: seq<int>, lexsize: nat, bufsize: nat, memoryLimit: int, ba: nat -> nat,
                        id: nat, restrictor: seq<Range>, chunks: seq<nat>)
    returns (ok: bool, plain: Attribute, compressed: Attribute, lists: (Answer, Answer), chunked: (seq<int>, seq<int>))
    requires InRange(corpus, lexsize) && bufsize > 0 && id < lexsize && SortedByStart(restrictor)
    requires forall i :: 0 <= i < lexsize ==> Fits(ba(i))
    ensures Stores(plain, corpus) && plain.index.Plain?
    ensures ok <==> forall i :: 0 <= i < lexsize ==> i in corpus
    ensures ok ==> Stores(compressed, corpus) && compressed.index.Compressed?
    ensures ok ==> lists.0 == lists.1 == Found(Keep(Positions(corpus, id), restrictor))
    ensures ok ==> chunked.0 == chunked.1 <= Positions(corpus, id)
  {
    hide Positions, Keep, Stores, Fits;
    plain := PlainAttribute(corpus, lexsize, bufsize, memoryLimit, ba);
    ok, compressed := CompressIndex(plain, corpus);
    AllOccur(plain, corpus);
    lists, chunked := (NoData, NoData), ([], []);
    if ok {
      assert id in corpus;
      var list := Id2Cpos(plain, id, restrictor, corpus);
      var list' := Id2Cpos(compressed, id, restrictor, corpus);
      var read := ReadInChunks(plain, id, chunks, corpus);
      var read' := ReadInChunks(compressed, id, chunks, corpus);
      assert read == Positions(corpus, id)[..|read|] && read' == Positions(corpus, id)[..|read'|];
      lists, chunked := (list, list'), (read, read');
    }
  }

  lemma AllOccur(a: Attribute, ids: seq<int>)
    requires Stores(a, ids)
    ensures (forall i :: 0 <= i < |a.freqs| ==> a.freqs[i] != 0) <==> forall i :: 0 <= i < |a.freqs| ==> i in ids
  {
    forall i | 0 <= i < |a.freqs| ensures a.freqs[i] != 0 <==> i in ids {
      var ps := Positions(ids, i);
      if ps != [] { assert ps[0] in ps; }
      if i in ids {
        var p :| 0 <= p < |ids| && ids[p] == i;
        assert p in ps;
      }
    }
  }
}
