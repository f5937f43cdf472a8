/** Building the inverted index of a positional attribute (cl/makecomps.c). */
module MakeComps {

  /** The positions below `n` at which `id` occurs, in ascending order. */
  function PositionsBelow(ids: seq<int>, id: int, n: nat): (ps: seq<int>)
    requires n <= |ids|
    ensures forall p :: p in ps <==> 0 <= p < n && ids[p] == id
    ensures forall k :: 0 <= k < |ps| ==> ps[k] < n
    ensures forall j, k :: 0 <= j < k < |ps| ==> ps[j] < ps[k]
  {
    if n == 0 then []
    else if ids[n - 1] == id then PositionsBelow(ids, id, n - 1) + [n - 1]
    else PositionsBelow(ids, id, n - 1)
  }

  function Positions(ids: seq<int>, id: int): seq<int>
  {
    PositionsBelow(ids, id, |ids|)
  }

  lemma {:induction false} PositionsGrow(ids: seq<int>, id: int, m: nat, n: nat)
    requires m <= n <= |ids|
    ensures |PositionsBelow(ids, id, m)| <= |PositionsBelow(ids, id, n)|
  {
    if m < n { PositionsGrow(ids, id, m, n - 1); }
  }

  /** The occurrences of the ids `lo .. hi - 1`, id by id. */
  function Inverted(ids: seq<int>, lo: nat, hi: nat): seq<int>
    decreases hi - lo
  {
    if lo >= hi then [] else Positions(ids, lo) + Inverted(ids, lo + 1, hi)
  }

  lemma {:induction false} InvertedSplit(ids: seq<int>, lo: nat, mid: nat, hi: nat)
    requires lo <= mid <= hi
    ensures Inverted(ids, lo, hi) == Inverted(ids, lo, mid) + Inverted(ids, mid, hi)
    decreases mid - lo
  {
    if lo < mid { InvertedSplit(ids, lo + 1, mid, hi); }
  }

  /** Sum of the frequencies of the ids below `k`. */
  function Start(freqs: seq<int>, k: nat): (s: int)
    requires k <= |freqs|
  {
    if k == 0 then 0 else Start(freqs, k - 1) + freqs[k - 1]
  }

  predicate CountsOf(freqs: seq<int>, ids: seq<int>)
  {
    forall id :: 0 <= id < |freqs| ==> freqs[id] == |Positions(ids, id)|
  }

  lemma {:induction false} StartMonotone(freqs: seq<int>, j: nat, k: nat)
    requires j <= k <= |freqs| && forall i :: 0 <= i < |freqs| ==> freqs[i] >= 0
    ensures Start(freqs, j) <= Start(freqs, k)
  {
    if j < k { StartMonotone(freqs, j, k - 1); }
  }

  lemma {:induction false} InvertedLength(ids: seq<int>, freqs: seq<int>, lo: nat, hi: nat)
    requires lo <= hi <= |freqs| && CountsOf(freqs, ids)
    ensures |Inverted(ids, lo, hi)| == Start(freqs, hi) - Start(freqs, lo)
    decreases hi - lo
  {
    if lo < hi { InvertedLength(ids, freqs, lo + 1, hi); }
  }

  predicate InRange(ids: seq<int>, lexsize: nat)
  {
    forall p :: 0 <= p < |ids| ==> 0 <= ids[p] < lexsize
  }

  /** Every position is listed exactly once. */
  lemma {:induction false} AllPositionsCounted(ids: seq<int>, lexsize: nat, n: nat)
    requires InRange(ids, lexsize) && n <= |ids|
    ensures CountBelow(ids, lexsize, n) == n
  {
    if n == 0 {
      NoneBelow(ids, lexsize);
    } else {
      AllPositionsCounted(ids, lexsize, n - 1);
      OneMore(ids, lexsize, n);
    }
  }

  /** Occurrences below `n` of the ids below `k`. */
  function CountBelow(ids: seq<int>, k: nat, n: nat): nat
    requires n <= |ids|
  {
    if k == 0 then 0 else CountBelow(ids, k - 1, n) + |PositionsBelow(ids, k - 1, n)|
  }

  lemma {:induction false} NoneBelow(ids: seq<int>, k: nat)
    ensures CountBelow(ids, k, 0) == 0
  {
    if k > 0 { NoneBelow(ids, k - 1); }
  }

  lemma {:induction false} OneMore(ids: seq<int>, k: nat, n: nat)
    requires 0 < n <= |ids| && 0 <= ids[n - 1]
    ensures CountBelow(ids, k, n) == CountBelow(ids, k, n - 1) + if ids[n - 1] < k then 1 else 0
  {
    if k > 0 { OneMore(ids, k - 1, n); }
  }

  lemma {:induction false} StartIsCount(ids: seq<int>, freqs: seq<int>, k: nat)
    requires k <= |freqs| && CountsOf(freqs, ids)
    ensures Start(freqs, k) == CountBelow(ids, k, |ids|)
  {
    if k > 0 { StartIsCount(ids, freqs, k - 1); }
  }

  lemma TotalIsCorpusSize(ids: seq<int>, freqs: seq<int>)
    requires CountsOf(freqs, ids) && InRange(ids, |freqs|)
    ensures Start(freqs, |freqs|) == |ids| == |Inverted(ids, 0, |freqs|)|
  {
    StartIsCount(ids, freqs, |freqs|);
    AllPositionsCounted(ids, |freqs|, |ids|);
    InvertedLength(ids, freqs, 0, |freqs|);
  }

  /** The slice of the inverted file that the index assigns to an id is its position list. */
  lemma SliceIsPositions(ids: seq<int>, freqs: seq<int>, id: nat)
    requires CountsOf(freqs, ids) && InRange(ids, |freqs|) && id < |freqs|
    ensures var s := Start(freqs, id);
            0 <= s <= s + freqs[id] <= |Inverted(ids, 0, |freqs|)| &&
            Inverted(ids, 0, |freqs|)[s..s + freqs[id]] == Positions(ids, id)
  {
    InvertedSplit(ids, 0, id, |freqs|);
    InvertedLength(ids, freqs, 0, id);
  }

  // ----- creat_freqs

  ghost predicate CountedUpTo(data: seq<int>, corpus: seq<int>, n: nat)
    requires n <= |corpus|
  {
    forall id :: 0 <= id < |data| ==> data[id] == |PositionsBelow(corpus, id, n)|
  }

  lemma CountStart(data: seq<int>, corpus: seq<int>)
    requires forall id :: 0 <= id < |data| ==> data[id] == 0
    ensures CountedUpTo(data, corpus, 0)
  {
  }

  lemma CountEnd(data: seq<int>, corpus: seq<int>)
    requires CountedUpTo(data, corpus, |corpus|)
    ensures CountsOf(data, corpus)
  {
  }

  lemma CountStep(data: seq<int>, corpus: seq<int>, n: nat, data': seq<int>)
    requires n < |corpus| && CountedUpTo(data, corpus, n)
    requires data' == if 0 <= corpus[n] < |data| then data[corpus[n] := data[corpus[n]] + 1] else data
    ensures CountedUpTo(data', corpus, n + 1)
  {
  }

  /** The positions below `n` whose id is out of range. */
  ghost function Misfits(corpus: seq<int>, lexsize: nat, n: nat): set<nat>
    requires n <= |corpus|
  {
    set p: nat | p < n && !(0 <= corpus[p] < lexsize)
  }

  lemma OneMoreRead(corpus: seq<int>, lexsize: nat, n: nat)
    requires n < |corpus|
    ensures |Misfits(corpus, lexsize, n + 1)| == |Misfits(corpus, lexsize, n)| + if 0 <= corpus[n] < lexsize then 0 else 1
  {
    assert Misfits(corpus, lexsize, n + 1) ==
           Misfits(corpus, lexsize, n) + if 0 <= corpus[n] < lexsize then {} else {n};
  }

  lemma NoneRead(corpus: seq<int>, lexsize: nat)
    ensures |Misfits(corpus, lexsize, 0)| == 0
  {
  }

  lemma AllFit(corpus: seq<int>, lexsize: nat)
    ensures |Misfits(corpus, lexsize, |corpus|)| == 0 <==> InRange(corpus, lexsize)
  {
    var m := Misfits(corpus, lexsize, |corpus|);
    if |m| == 0 {
      forall p | 0 <= p < |corpus| ensures 0 <= corpus[p] < lexsize { assert p !in m; }
    } else {
      var p :| p in m;
    }
  }

  /** The loop over one block read from the corpus file. */
  method CountBlock(corpus: seq<int>, read: nat, i: nat, data: array<int>, warnings: nat) returns (warnings': nat)
    requires read + i <= |corpus| && CountedUpTo(data[..], corpus, read)
    requires warnings == |Misfits(corpus, data.Length, read)|
    modifies data
    ensures CountedUpTo(data[..], corpus, read + i)
    ensures warnings' == |Misfits(corpus, data.Length, read + i)|
  {
    hide CountedUpTo, Misfits;
    warnings' := warnings;
    var block := corpus[read..read + i];
    for k := 0 to i
      invariant CountedUpTo(data[..], corpus, read + k)
      invariant warnings' == |Misfits(corpus, data.Length, read + k)|
    {
      var ptr := block[k];
      ghost var before := data[..];
      OneMoreRead(corpus, data.Length, read + k);
      if 0 <= ptr < data.Length {
        data[ptr] := data[ptr] + 1;
      } else {
        warnings' := warnings' + 1;
      }
      CountStep(before, corpus, read + k, data[..]);
    }
  }

  /** Counts the ids, reading the corpus file in blocks of `bufsize` integers. */
  method CreatFreqs(corpus: seq<int>, lexsize: nat, bufsize: nat) returns (freqs: seq<int>, warnings: nat)
    requires bufsize > 0
    ensures |freqs| == lexsize && CountsOf(freqs, corpus)
    ensures warnings == |set p: nat | p < |corpus| && !(0 <= corpus[p] < lexsize)|
    ensures warnings == 0 <==> InRange(corpus, lexsize)
  {
    hide CountedUpTo, CountsOf;
    var data := new int[lexsize](_ => 0);
    CountStart(data[..], corpus);
    warnings := 0;
    NoneRead(corpus, lexsize);
    AllFit(corpus, lexsize);
    var read := 0;
    var i := bufsize;
    while i == bufsize
      invariant 0 <= read <= |corpus|
      invariant i <= bufsize && (i < bufsize ==> read == |corpus|)
      invariant CountedUpTo(data[..], corpus, read)
      invariant warnings == |Misfits(corpus, lexsize, read)|
      decreases |corpus| - read, if i == bufsize then 1 else 0
    {
      i := if |corpus| - read < bufsize then |corpus| - read else bufsize;
      warnings := CountBlock(corpus, read, i, data, warnings);
      read := read + i;
    }
    assert Misfits(corpus, lexsize, |corpus|) == set p: nat | p < |corpus| && !(0 <= corpus[p] < lexsize);
    CountEnd(data[..], corpus);
    freqs := data[..];
  }

  // ----- creat_rev_corpus

  /** Where the occurrences of `id` start in the buffer of a pass. */
  function Base(freqs: seq<int>, primus: nat, id: nat): int
    requires primus < id <= |freqs|
  {
    Start(freqs, id) - Start(freqs, primus + 1)
  }

  /** How many ids fit into the buffer; their pointers are set to where each id's part begins. */
  method PlanPass(freqs: seq<int>, ids: seq<int>, primus: nat, bufsize: nat, ptab: array<int>)
    returns (secundus: nat, used: nat)
    requires CountsOf(freqs, ids) && primus < |freqs| == ptab.Length
    modifies ptab
    ensures primus <= secundus < |freqs|
    ensures used == Base(freqs, primus, secundus + 1) <= bufsize
    ensures forall id :: primus < id <= secundus ==> ptab[id] == Base(freqs, primus, id)
    ensures secundus + 1 < |freqs| ==> used + freqs[secundus + 1] > bufsize
  {
    used := 0;
    secundus := primus + 1;
    while secundus < |freqs|
      invariant primus < secundus <= |freqs|
      invariant used == Base(freqs, primus, secundus) <= bufsize
      invariant forall id :: primus < id < secundus ==> ptab[id] == Base(freqs, primus, id)
    {
      var f := freqs[secundus];
      if used + f > bufsize { break; }
      ptab[secundus] := used;
      used := used + f;
      secundus := secundus + 1;
    }
    secundus := secundus - 1;
  }

  /** The part of the buffer filled for `id` after `n` corpus positions. */
  ghost predicate Filled(ids: seq<int>, freqs: seq<int>, primus: nat, id: nat, n: nat, buffer: seq<int>, ptr: int)
    requires primus < id < |freqs| && n <= |ids|
  {
    var b := Base(freqs, primus, id);
    0 <= b <= ptr <= |buffer| && buffer[b..ptr] == PositionsBelow(ids, id, n)
  }

  /** The part of the buffer reserved for `id` lists all its positions. */
  ghost predicate Full(ids: seq<int>, freqs: seq<int>, primus: nat, id: nat, buffer: seq<int>)
    requires primus < id < |freqs|
  {
    Filled(ids, freqs, primus, id, |ids|, buffer, Base(freqs, primus, id + 1))
  }

  /** One pass over the corpus. */
  method Pass(ids: seq<int>, freqs: seq<int>, primus: nat, secundus: nat, used: nat,
              buffer: array<int>, ptab: array<int>) returns (direct: seq<int>)
    requires CountsOf(freqs, ids) && InRange(ids, |freqs|)
    requires primus <= secundus < |freqs| == ptab.Length && buffer != ptab
    requires used == Base(freqs, primus, secundus + 1) <= buffer.Length
    requires forall id :: primus < id <= secundus ==> ptab[id] == Base(freqs, primus, id)
    modifies buffer, ptab
    ensures direct == Positions(ids, primus)
    ensures forall id :: primus < id <= secundus ==> ptab[id] == Base(freqs, primus, id + 1)
    ensures forall id :: primus < id <= secundus ==> Full(ids, freqs, primus, id, buffer[..])
  {
    direct := [];
    forall id | primus < id <= secundus ensures Filled(ids, freqs, primus, id, 0, buffer[..], ptab[id]) {
      InBuffer(ids, freqs, primus, id, secundus, used);
    }
    for cpos := 0 to |ids|
      invariant direct == PositionsBelow(ids, primus, cpos)
      invariant forall id :: primus < id <= secundus ==> Filled(ids, freqs, primus, id, cpos, buffer[..], ptab[id])
    {
      var id := ids[cpos];
      if id == primus {
        direct := direct + [cpos];
        StillFilled(ids, freqs, primus, secundus, cpos, buffer[..], ptab[..]);
      } else if primus < id <= secundus {
        Store(ids, freqs, primus, secundus, used, cpos, buffer, ptab);
      } else {
        StillFilled(ids, freqs, primus, secundus, cpos, buffer[..], ptab[..]);
      }
    }
    forall id | primus < id <= secundus
      ensures ptab[id] == Base(freqs, primus, id + 1) && Full(ids, freqs, primus, id, buffer[..])
    {
      assert Filled(ids, freqs, primus, id, |ids|, buffer[..], ptab[id]);
    }
  }

  lemma StillFilled(ids: seq<int>, freqs: seq<int>, primus: nat, secundus: nat, cpos: nat, buffer: seq<int>, ptab: seq<int>)
    requires cpos < |ids| && primus <= secundus < |freqs| == |ptab|
    requires !(primus < ids[cpos] <= secundus)
    requires forall id :: primus < id <= secundus ==> Filled(ids, freqs, primus, id, cpos, buffer, ptab[id])
    ensures forall id :: primus < id <= secundus ==> Filled(ids, freqs, primus, id, cpos + 1, buffer, ptab[id])
  {
  }

  lemma InBuffer(ids: seq<int>, freqs: seq<int>, primus: nat, id: nat, secundus: nat, used: nat)
    requires CountsOf(freqs, ids) && primus < id <= secundus < |freqs|
    requires used == Base(freqs, primus, secundus + 1)
    ensures 0 <= Base(freqs, primus, id) && Base(freqs, primus, id) + freqs[id] <= used
  {
    StartMonotone(freqs, primus + 1, id);
    StartMonotone(freqs, id + 1, secundus + 1);
  }

  /** `*(ptab[id]++) = cpos` stays inside the part of the buffer reserved for the id. */
  method Store(ids: seq<int>, freqs: seq<int>, primus: nat, secundus: nat, used: nat, cpos: nat,
               buffer: array<int>, ptab: array<int>)
    requires CountsOf(freqs, ids) && primus <= secundus < |freqs| == ptab.Length && buffer != ptab
    requires used == Base(freqs, primus, secundus + 1) <= buffer.Length
    requires cpos < |ids| && primus < ids[cpos] <= secundus
    requires forall id :: primus < id <= secundus ==> Filled(ids, freqs, primus, id, cpos, buffer[..], ptab[id])
    modifies buffer, ptab
    ensures forall id :: primus < id <= secundus ==> Filled(ids, freqs, primus, id, cpos + 1, buffer[..], ptab[id])
  {
    var id := ids[cpos];
    var at := ptab[id];
    PositionsGrow(ids, id, cpos + 1, |ids|);
    InBuffer(ids, freqs, primus, id, secundus, used);
    ghost var before := buffer[..];
    ghost var pointers := ptab[..];
    buffer[at] := cpos;
    ptab[id] := at + 1;
    forall k | primus < k <= secundus ensures Filled(ids, freqs, primus, k, cpos + 1, buffer[..], ptab[k]) {
      assert Filled(ids, freqs, primus, k, cpos, before, pointers[k]);
      var b := Base(freqs, primus, k);
      PositionsGrow(ids, k, cpos, |ids|);
      if k == id {
        assert buffer[b..at] == before[b..at];
        assert buffer[b..at + 1] == buffer[b..at] + [cpos];
      } else {
        PartsDisjoint(freqs, ids, primus, id, k);
        assert buffer[b..ptab[k]] == before[b..ptab[k]];
      }
    }
  }

  lemma PartsDisjoint(freqs: seq<int>, ids: seq<int>, primus: nat, j: nat, k: nat)
    requires CountsOf(freqs, ids) && primus < j < |freqs| && primus < k < |freqs| && j != k
    ensures Base(freqs, primus, j) + freqs[j] <= Base(freqs, primus, k) ||
            Base(freqs, primus, k) + freqs[k] <= Base(freqs, primus, j)
  {
    if j < k { StartMonotone(freqs, j + 1, k); } else { StartMonotone(freqs, k + 1, j); }
  }

  lemma {:induction false} BufferIsInverted(ids: seq<int>, freqs: seq<int>, primus: nat, hi: nat, buffer: seq<int>)
    requires CountsOf(freqs, ids) && primus < hi <= |freqs|
    requires forall id :: primus < id < hi ==> Full(ids, freqs, primus, id, buffer)
    ensures 0 <= Base(freqs, primus, hi) <= |buffer|
    ensures buffer[..Base(freqs, primus, hi)] == Inverted(ids, primus + 1, hi)
  {
    hide *;
    if hi == primus + 1 {
      NothingBuffered(freqs, primus);
      InvertedEmpty(ids, primus + 1);
    } else {
      BufferIsInverted(ids, freqs, primus, hi - 1, buffer);
      PartOf(ids, freqs, primus, hi - 1, buffer);
      InvertedSplit(ids, primus + 1, hi - 1, hi);
      InvertedOne(ids, hi - 1);
      var b, e := Base(freqs, primus, hi - 1), Base(freqs, primus, hi);
      assert buffer[..e] == buffer[..b] + buffer[b..e];
    }
  }

  lemma PartOf(ids: seq<int>, freqs: seq<int>, primus: nat, id: nat, buffer: seq<int>)
    requires primus < id < |freqs| && Full(ids, freqs, primus, id, buffer)
    ensures var b, e := Base(freqs, primus, id), Base(freqs, primus, id + 1);
            0 <= b <= e <= |buffer| && buffer[b..e] == Positions(ids, id)
  {
  }

  /** The consistency check on the pointers after a pass. */
  method PointersConsistent(freqs: seq<int>, ptab: array<int>, primus: nat, secundus: nat) returns (ok: bool)
    requires primus <= secundus < |freqs| == ptab.Length
    requires forall id :: primus < id <= secundus ==> ptab[id] == Base(freqs, primus, id + 1)
    ensures ok
  {
    var ptr := 0;
    for id := primus + 1 to secundus + 1
      invariant ptr == Base(freqs, primus, id)
    {
      ptr := ptr + freqs[id];
      if ptr != ptab[id] { return false; }
    }
    return true;
  }

  datatype Result = Written(file: seq<int>, passes: nat) | PointerInconsistency | SizeInconsistency

  /** creat_rev_corpus, for any buffer size: in each pass the occurrences of `primus` go straight to
      the file, those of the ids up to `secundus` through the buffer. */
  method CreatRevCorpus(ids: seq<int>, freqs: seq<int>, bufsize: nat) returns (r: Result)
    requires CountsOf(freqs, ids) && InRange(ids, |freqs|)
    ensures r.Written? && r.file == Inverted(ids, 0, |freqs|) && |r.file| == |ids|
    ensures r.passes <= |freqs|
  {
    hide PositionsBelow, Inverted, Full;
    var buffer := new int[bufsize];
    var ptab := new int[|freqs|];
    var file: seq<int>, written, pass, primus := [], 0, 0, 0;
    var cpos := 0;
    InvertedEmpty(ids, 0);
    while primus < |freqs|
      invariant 0 <= primus <= |freqs| && pass <= primus
      invariant file == Inverted(ids, 0, primus) && written == |file|
      invariant cpos == if primus > 0 then |ids| else 0
      decreases |freqs| - primus
    {
      var secundus, used := PlanPass(freqs, ids, primus, bufsize, ptab);
      pass := pass + 1;
      var direct := Pass(ids, freqs, primus, secundus, used, buffer, ptab);
      cpos := |ids|;
      file, written := file + direct, written + |direct|;
      var ok := PointersConsistent(freqs, ptab, primus, secundus);
      if !ok { return PointerInconsistency; }
      PassAppends(ids, freqs, primus, secundus, used, buffer[..]);
      file, written := file + buffer[..used], written + used;
      primus := secundus + 1;
    }
    TotalIsCorpusSize(ids, freqs);
    if |freqs| == 0 { assert |ids| == 0; }
    if written != cpos || written != |ids| { return SizeInconsistency; }
    return Written(file, pass);
  }

  lemma InvertedEmpty(ids: seq<int>, k: nat)
    ensures Inverted(ids, k, k) == []
  {
  }

  lemma PassAppends(ids: seq<int>, freqs: seq<int>, primus: nat, secundus: nat, used: nat, buffer: seq<int>)
    requires CountsOf(freqs, ids) && primus <= secundus < |freqs|
    requires used == Base(freqs, primus, secundus + 1) <= |buffer|
    requires forall id :: primus < id <= secundus ==> Full(ids, freqs, primus, id, buffer)
    ensures Inverted(ids, 0, secundus + 1) == Inverted(ids, 0, primus) + Positions(ids, primus) + buffer[..used]
  {
    hide *;
    BufferIsInverted(ids, freqs, primus, secundus + 1, buffer);
    InvertedSplit(ids, 0, primus, secundus + 1);
    InvertedSplit(ids, primus, primus + 1, secundus + 1);
    InvertedOne(ids, primus);
  }

  lemma InvertedOne(ids: seq<int>, k: nat)
    ensures Inverted(ids, k, k + 1) == Positions(ids, k)
  {
  }

  lemma NothingBuffered(freqs: seq<int>, primus: nat)
    requires primus < |freqs|
    ensures Base(freqs, primus, primus + 1) == 0
  {
  }

  /** The buffer size chosen from cl_memory_limit (in megabytes; 0: no limit). */
  method BufferSize(memoryLimit: int, datasize: nat) returns (bufsize: nat)
    ensures bufsize <= datasize
    ensures memoryLimit <= 0 || datasize <= memoryLimit * 262144 ==> bufsize == datasize
    ensures memoryLimit > 0 && memoryLimit * 262144 < datasize ==> bufsize == memoryLimit * 262144
  {
    bufsize := if memoryLimit > 0 then memoryLimit * 262144 else datasize;
    if datasize < bufsize { bufsize := datasize; }
  }

  // ----- creat_rev_corpus_idx

  lemma StartZero(freqs: seq<int>)
    ensures Start(freqs, 0) == 0
  {
  }

  lemma StartStep(freqs: seq<int>, k: nat)
    requires k < |freqs|
    ensures Start(freqs, k + 1) == Start(freqs, k) + freqs[k]
  {
  }

  method CreatRevCorpusIdx(freqs: seq<int>) returns (index: seq<int>)
    ensures |index| == |freqs| && forall k :: 0 <= k < |freqs| ==> index[k] == Start(freqs, k)
  {
    hide Start;
    var data := new int[|freqs|](_ => 0);
    var sum := 0;
    StartZero(freqs);
    for k := 0 to |freqs|
      invariant sum == Start(freqs, k)
      invariant forall j :: 0 <= j < k ==> data[j] == Start(freqs, j)
    {
      data[k] := sum;
      StartStep(freqs, k);
      sum := sum + freqs[k];
    }
    index := data[..];
  }

  /** The three components built one after the other: whatever the memory limit and the block size,
      the slice of each id is the list of all its positions. */
  method MakeIndex(corpus: seq<int>, lexsize: nat, bufsize: nat, memoryLimit: int)
    returns (freqs: seq<int>, file: seq<int>, index: seq<int>)
    requires InRange(corpus, lexsize) && bufsize > 0
    ensures |freqs| == |index| == lexsize && |file| == |corpus| && CountsOf(freqs, corpus)
    ensures forall id :: 0 <= id < lexsize ==>
              0 <= index[id] <= index[id] + freqs[id] <= |file| &&
              file[index[id]..index[id] + freqs[id]] == Positions(corpus, id)
  {
    hide PositionsBelow, Inverted;
    var warnings, r, size;
    freqs, warnings := CreatFreqs(corpus, lexsize, bufsize);
    size := BufferSize(memoryLimit, |corpus|);
    r := CreatRevCorpus(corpus, freqs, size);
    file := r.file;
    index := CreatRevCorpusIdx(freqs);
    forall id | 0 <= id < lexsize
      ensures 0 <= index[id] <= index[id] + freqs[id] <= |file| &&
              file[index[id]..index[id] + freqs[id]] == Positions(corpus, id)
    {
      SliceIsPositions(corpus, freqs, id);
    }
  }
}
