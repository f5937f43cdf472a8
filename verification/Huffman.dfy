/** Huffman-compressed item sequences: the code descriptor block, the writer
    (utils/cwb-huffcode.c) and cl_cpos2id with its one-block decompression cache. */
module Huffman {
  import opened Arithmetic
  import opened BitIO

  const MAXCODELEN := 32
  const SYNCHRONIZATION := 128

  /** HCD: the arrays are indexed by code length. */
  datatype HCD = HCD(size: nat, length: nat, maxCodelen: nat, lcount: seq<nat>, symindex: seq<nat>,
                     minCode: seq<nat>, symbols: seq<int>)

  /** Canonical codes of lengths 1 to `maxCodelen`: the codes of one length are consecutive, and
      the prefixes one bit shorter lie below the codes of that shorter length. */
  predicate WellFormed(h: HCD)
  {
    1 <= h.maxCodelen < MAXCODELEN && |h.lcount| == |h.minCode| == |h.symindex| == MAXCODELEN &&
    (forall l :: 1 <= l < h.maxCodelen ==> 2 * h.minCode[l] == h.minCode[l + 1] + h.lcount[l + 1]) &&
    (forall l :: 1 <= l <= h.maxCodelen ==> h.minCode[l] + h.lcount[l] <= Pow2(l)) &&
    (forall l :: 1 <= l <= h.maxCodelen ==> h.symindex[l] + h.lcount[l] <= |h.symbols|)
  }

  /** A code of the descriptor and the symbol it stands for. */
  datatype Word = Word(len: nat, code: nat)

  predicate CodeOf(h: HCD, w: Word, id: int)
    requires WellFormed(h)
  {
    1 <= w.len <= h.maxCodelen && h.minCode[w.len] <= w.code < h.minCode[w.len] + h.lcount[w.len] &&
    h.symbols[h.symindex[w.len] + w.code - h.minCode[w.len]] == id
  }

  /** The first `k` bits of a code. */
  function Prefix(w: Word, k: nat): nat
    requires k <= w.len
  {
    Div(w.code, Pow2(w.len - k))
  }

  lemma PrefixStep(w: Word, k: nat)
    requires k < w.len
    ensures Prefix(w, k) == Prefix(w, k + 1) / 2
    ensures Prefix(w, w.len) == w.code
  {
    DivHalf(w.code, Pow2(w.len - k - 1));
    assert Pow2(0) == 1;
  }

  /** The decoder cannot stop early: every proper prefix is below the codes of its length. */
  lemma {:induction false} ProperPrefixBelow(h: HCD, w: Word, id: int, k: nat)
    requires WellFormed(h) && CodeOf(h, w, id) && 1 <= k < w.len
    ensures Prefix(w, k) < h.minCode[k]
    decreases w.len - k
  {
    hide Pow2, Prefix;
    PrefixStep(w, k);
    assert 2 * h.minCode[k] == h.minCode[k + 1] + h.lcount[k + 1];
    if k + 1 < w.len { ProperPrefixBelow(h, w, id, k + 1); }
  }

  /** Two codes of one descriptor agree on their bits only if they are the same: none is a prefix
      of another. */
  lemma PrefixFree(h: HCD, v: Word, w: Word, i: int, j: int)
    requires WellFormed(h) && CodeOf(h, v, i) && CodeOf(h, w, j) && v.len <= w.len
    requires Prefix(w, v.len) == v.code
    ensures v == w && i == j
  {
    hide Pow2, Prefix;
    if v.len < w.len {
      ProperPrefixBelow(h, w, j, v.len);
    } else {
      assert Prefix(w, w.len) == w.code by { WholePrefix(w); }
    }
  }

  lemma WholePrefix(w: Word)
    ensures Prefix(w, w.len) == w.code
  {
    assert Pow2(0) == 1;
  }

  lemma PrefixBits(w: Word, k: nat)
    requires k < w.len
    ensures BitsOf(w.code, w.len)[k..] == [Prefix(w, k + 1) % 2 == 1] + BitsOf(w.code, w.len)[k + 1..]
  {
    hide Pow2, BitsOf;
    var m := w.len - k - 1;
    SplitBits(w.code, k + 1, m);
    LowBit(Prefix(w, k + 1), k + 1);
    assert BitsOf(w.code, w.len)[k] == BitsOf(w.code / Pow2(m), k + 1)[k];
  }

  /** The inner loop of cl_cpos2id: the code of `id` is read up to its last bit and no further. */
  method ReadItem(h: HCD, bs: BStream, ghost w: Word, ghost id: int, ghost tail: Bits) returns (item: int)
    requires WellFormed(h) && CodeOf(h, w, id) && bs.Valid()
    requires bs.Rest() == BitsOf(w.code, w.len) + tail
    modifies bs
    ensures bs.Valid() && item == id && bs.Rest() == tail
  {
    hide BStream.Rest, BitsOf, Prefix, Pow2;
    ghost var bits := BitsOf(w.code, w.len);
    FirstPrefix(h, w, id);
    assert bits[0..] == bits;
    PrefixBits(w, 0);
    NextBit(bits, 0, tail);
    var bit := bs.ReadBit();
    SameStart(bit, bs.Rest(), bits[0], bits[1..] + tail);
    var v := if bit then 1 else 0;
    var l := 1;
    while v < h.minCode[l]
      invariant 1 <= l <= w.len && bs.Valid()
      invariant v == Prefix(w, l) && bs.Rest() == bits[l..] + tail
      decreases w.len - l
    {
      WholePrefix(w);
      PrefixBits(w, l);
      PrefixStep(w, l);
      NextBit(bits, l, tail);
      bit := bs.ReadBit();
      SameStart(bit, bs.Rest(), bits[l], bits[l + 1..] + tail);
      v := 2 * v;
      if bit { v := v + 1; }
      l := l + 1;
    }
    if l < w.len { ProperPrefixBelow(h, w, id, l); }
    WholePrefix(w);
    assert bits[l..] + tail == tail;
    return h.symbols[h.symindex[l] + v - h.minCode[l]];
  }

  lemma NextBit(bits: Bits, k: nat, tail: Bits)
    requires k < |bits|
    ensures bits[k..] + tail == [bits[k]] + (bits[k + 1..] + tail)
  {
  }

  lemma FirstPrefix(h: HCD, w: Word, id: int)
    requires WellFormed(h) && CodeOf(h, w, id)
    ensures Prefix(w, 1) <= 1
  {
    hide Prefix;
    assert w.code < Pow2(w.len);
    PrefixBound(w, 1);
    assert Pow2(1) == 2;
  }

  lemma {:induction false} PrefixBound(w: Word, k: nat)
    requires w.code < Pow2(w.len) && k <= w.len
    ensures Prefix(w, k) < Pow2(k)
    decreases w.len - k
  {
    hide Prefix, Pow2;
    if k == w.len {
      WholePrefix(w);
    } else {
      PrefixStep(w, k);
      PrefixBound(w, k + 1);
      PowStep(k);
    }
  }

  // ----- sequences and blocks

  /** The codes of a stretch of items one after the other. */
  function CodeBits(words: seq<Word>, items: seq<int>): Bits
    requires forall i :: 0 <= i < |items| ==> 0 <= items[i] < |words|
  {
    if items == [] then []
    else BitsOf(words[items[0]].code, words[items[0]].len) + CodeBits(words, items[1..])
  }

  predicate InLexicon(items: seq<int>, n: nat)
  {
    forall i :: 0 <= i < |items| ==> 0 <= items[i] < n
  }

  predicate Codes(h: HCD, words: seq<Word>)
  {
    WellFormed(h) && |words| == h.size && forall id :: 0 <= id < h.size ==> CodeOf(h, words[id], id)
  }

  function BlockEnd(n: nat, k: nat): nat
  {
    if (k + 1) * SYNCHRONIZATION < n then (k + 1) * SYNCHRONIZATION else n
  }

  /** The codes of block `k` start at its synchronisation offset. */
  ghost predicate BlockAt(words: seq<Word>, items: seq<int>, cis: seq<Byte>, offset: int, k: nat)
    requires InLexicon(items, |words|)
  {
    k * SYNCHRONIZATION < |items| && 0 <= offset <= |cis| &&
    CodeBits(words, items[k * SYNCHRONIZATION..BlockEnd(|items|, k)]) <= BytesBits(cis[offset..])
  }

  /** The compressed components hold the item sequence. */
  ghost predicate Holds(h: HCD, words: seq<Word>, items: seq<int>, cis: seq<Byte>, sync: seq<int>)
  {
    Codes(h, words) && InLexicon(items, |words|) && h.length == |items| &&
    |sync| == (|items| + SYNCHRONIZATION - 1) / SYNCHRONIZATION &&
    forall k :: 0 <= k < |sync| ==> BlockAt(words, items, cis, sync[k], k)
  }

  /** The bytes `from .. to - 1` hold the codes of items `128 k .. 128 k + 127`, or up to the last one,
      padded with zeros to whole bytes. */
  ghost predicate BlockLaid(words: seq<Word>, items: seq<int>, cis: seq<Byte>, from: int, to: int, k: nat)
    requires InLexicon(items, |words|)
  {
    128 * k < |items| && 0 <= from <= to <= |cis| &&
    var codes := CodeBits(words, items[128 * k..if 128 * k + 128 < |items| then 128 * k + 128 else |items|]);
    var pad := 8 * (to - from) - |codes|;
    0 <= pad < 8 && BytesBits(cis[from..to]) == codes + Zeros(pad)
  }

  /** All blocks but the one being written lie one behind the other. */
  ghost predicate BlocksDone(words: seq<Word>, items: seq<int>, cis: seq<Byte>, sync: seq<int>)
    requires InLexicon(items, |words|)
  {
    (sync != [] ==> sync[0] == 0) &&
    forall j :: 0 <= j < |sync| - 1 ==> BlockLaid(words, items, cis, sync[j], sync[j + 1], j)
  }

  /** The whole file: the blocks one behind the other, and nothing else. */
  ghost predicate AllLaid(words: seq<Word>, items: seq<int>, cis: seq<Byte>, sync: seq<int>)
    requires InLexicon(items, |words|)
  {
    |sync| == (|items| + 127) / 128 && BlocksDone(words, items, cis, sync) &&
    if sync == [] then cis == [] else BlockLaid(words, items, cis, sync[|sync| - 1], |cis|, |sync| - 1)
  }

  lemma DoneStays(words: seq<Word>, items: seq<int>, cis: seq<Byte>, longer: seq<Byte>, sync: seq<int>)
    requires InLexicon(items, |words|) && BlocksDone(words, items, cis, sync) && cis <= longer
    ensures BlocksDone(words, items, longer, sync)
  {
    forall j | 0 <= j < |sync| - 1 ensures BlockLaid(words, items, longer, sync[j], sync[j + 1], j) {
      assert BlockLaid(words, items, cis, sync[j], sync[j + 1], j);
      assert longer[sync[j]..sync[j + 1]] == cis[sync[j]..sync[j + 1]];
    }
  }

  lemma OneMoreDone(words: seq<Word>, items: seq<int>, cis: seq<Byte>, sync: seq<int>)
    requires InLexicon(items, |words|) && BlocksDone(words, items, cis, sync)
    requires if sync == [] then cis == [] else BlockLaid(words, items, cis, sync[|sync| - 1], |cis|, |sync| - 1)
    ensures BlocksDone(words, items, cis, sync + [|cis|])
  {
    hide BlockLaid;
  }

  // ----- cl_cpos2id

  datatype Lookup = Id(id: int) | PositionOutOfRange

  /** The loop over the items of a block. */
  method ReadItems(h: HCD, bs: BStream, block: array<int>, max: nat, ghost words: seq<Word>, ghost part: seq<int>, ghost tail: Bits)
    requires Codes(h, words) && InLexicon(part, |words|) && max == |part| <= block.Length && bs.Valid()
    requires bs.Rest() == CodeBits(words, part) + tail
    modifies bs, block
    ensures block[..max] == part
  {
    hide BStream.Rest, BitsOf, CodeOf, WellFormed;
    assert part[0..] == part;
    for i := 0 to max
      invariant bs.Valid() && bs.Rest() == CodeBits(words, part[i..]) + tail
      invariant block[..i] == part[..i]
    {
      ghost var id := part[i];
      assert part[i..][0] == id && part[i..][1..] == part[i + 1..];
      ghost var w := words[id];
      ghost var rest := CodeBits(words, part[i + 1..]) + tail;
      assert CodeBits(words, part[i..]) + tail == BitsOf(w.code, w.len) + rest;
      var item := ReadItem(h, bs, w, id, rest);
      block[i] := item;
      assert block[..i + 1] == block[..i] + [item];
    }
  }

  class CompressedSequence {
    const hc: HCD
    const cis: seq<Byte>
    const sync: seq<int>
    const thisBlock: array<int>
    var thisBlockNr: int
    ghost const words: seq<Word>
    ghost const items: seq<int>

    constructor (hc: HCD, cis: seq<Byte>, sync: seq<int>, ghost words: seq<Word>, ghost items: seq<int>)
      requires Holds(hc, words, items, cis, sync)
      ensures Valid() && this.items == items && fresh(thisBlock)
    {
      this.hc, this.cis, this.sync := hc, cis, sync;
      this.words, this.items := words, items;
      thisBlock := new int[SYNCHRONIZATION];
      thisBlockNr := -1;
    }

    /** The cache is empty or holds the block that its number names. */
    ghost predicate Valid()
      reads this, thisBlock
    {
      Holds(hc, words, items, cis, sync) && thisBlock.Length == SYNCHRONIZATION &&
      (thisBlockNr == -1 || (0 <= thisBlockNr < |sync| && Cached(thisBlockNr)))
    }

    ghost predicate Cached(k: nat)
      requires thisBlock.Length == SYNCHRONIZATION
      reads thisBlock
    {
      k * SYNCHRONIZATION < |items| &&
      thisBlock[..BlockEnd(|items|, k) - k * SYNCHRONIZATION] == items[k * SYNCHRONIZATION..BlockEnd(|items|, k)]
    }

    /** Decompresses one block into the cache. */
    method ReadBlock(block: nat)
      requires Valid() && block < |sync|
      modifies thisBlock
      ensures Cached(block)
    {
      hide BStream.Rest, BytesBits, CodeBits, Codes;
      ghost var from, to := block * SYNCHRONIZATION, BlockEnd(|items|, block);
      ghost var part := items[from..to];
      assert BlockAt(words, items, cis, sync[block], block);
      var max := hc.length - block * SYNCHRONIZATION;
      if max > SYNCHRONIZATION { max := SYNCHRONIZATION; }
      assert max == to - from;
      var bs := new BStream(cis);
      bs.Seek(sync[block]);
      ghost var tail := BytesBits(cis[sync[block]..])[|CodeBits(words, part)|..];
      ReadItems(hc, bs, thisBlock, max, words, part, tail);
    }

    /** Whatever was asked before, the answer is the item of the uncompressed sequence. */
    method Cpos2Id(position: int) returns (r: Lookup)
      requires Valid()
      modifies this`thisBlockNr, thisBlock
      ensures Valid()
      ensures r == if 0 <= position < |items| then Id(items[position]) else PositionOutOfRange
    {
      if position < 0 || position >= hc.length { return PositionOutOfRange; }
      var block, rest := position / SYNCHRONIZATION, position % SYNCHRONIZATION;
      if thisBlockNr != block {
        ReadBlock(block);
        thisBlockNr := block;
      }
      assert Cached(block);
      assert thisBlock[rest] == thisBlock[..BlockEnd(|items|, block) - block * SYNCHRONIZATION][rest];
      return Id(thisBlock[rest]);
    }

    /** Any run of accesses. */
    method Accesses(positions: seq<int>) returns (rs: seq<Lookup>)
      requires Valid()
      modifies this`thisBlockNr, thisBlock
      ensures Valid() && |rs| == |positions|
      ensures forall k :: 0 <= k < |rs| ==>
                rs[k] == if 0 <= positions[k] < |items| then Id(items[positions[k]]) else PositionOutOfRange
    {
      rs := [];
      for k := 0 to |positions|
        invariant Valid() && |rs| == k
        invariant forall j :: 0 <= j < k ==>
                    rs[j] == if 0 <= positions[j] < |items| then Id(items[positions[j]]) else PositionOutOfRange
      {
        var r := Cpos2Id(positions[k]);
        rs := rs + [r];
      }
    }
  }

  // ----- writing the sequence

  /** The items written since the last synchronisation point, at which the file was `start`. */
  ghost predicate Open(words: seq<Word>, items: seq<int>, start: seq<Byte>, written: Bits, from: nat, to: nat)
    requires InLexicon(items, |words|) && from <= to <= |items|
  {
    written == BytesBits(start) + CodeBits(words, items[from..to])
  }

  /** The loop of compute_code_lengths that writes the token stream: the stream is flushed before
      every 128th item, and its position noted. */
  method WriteSequence(h: HCD, words: seq<Word>, items: seq<int>) returns (cis: seq<Byte>, sync: seq<int>)
    requires Codes(h, words) && InLexicon(items, |words|) && h.length == |items|
    ensures Holds(h, words, items, cis, sync) && AllLaid(words, items, cis, sync)
  {
    hide BFile.Written, BytesBits, BitsOf, CodeBits, BlockAt, CodeOf, WellFormed, Open, BlockLaid, BlocksDone;
    var bf := new BFile();
    sync := [];
    ghost var start: seq<Byte>, k := [], 0;
    NoBlocks(words, items);
    for i := 0 to |items|
      invariant BlocksDone(words, items, bf.file, sync) && (i == 0 ==> sync == [] && bf.file == [])
      invariant bf.Valid() && fresh(bf) && (i == 0 ==> bf.bitsInBuf == 0)
      invariant |sync| == k == (i + SYNCHRONIZATION - 1) / SYNCHRONIZATION
      invariant forall j :: 0 <= j < k - 1 ==> BlockAt(words, items, bf.file, sync[j], j)
      invariant i > 0 ==> start <= bf.file && |start| == sync[k - 1] && k > 0
      invariant i > 0 ==> Open(words, items, start, bf.Written(), (k - 1) * SYNCHRONIZATION, i)
    {
      if i % SYNCHRONIZATION == 0 {
        if i > 0 { FlushBlock(words, items, bf, start, sync, k); }
        OneMoreDone(words, items, bf.file, sync);
        sync := sync + [bf.position];
        start := bf.file;
        k := k + 1;
        BlockOpens(bf, words, items, i);
      }
      ghost var file := bf.file;
      WriteItem(h, words, items, bf, start, sync, k, i);
      DoneStays(words, items, file, bf.file, sync);
    }
    if |items| > 0 { FlushBlock(words, items, bf, start, sync, k); }
    cis := bf.file;
  }

  lemma NoBlocks(words: seq<Word>, items: seq<int>)
    requires InLexicon(items, |words|)
    ensures BlocksDone(words, items, [], [])
  {
  }

  /** One code; the blocks written before stay as they are. */
  method WriteItem(h: HCD, words: seq<Word>, items: seq<int>, bf: BFile, ghost start: seq<Byte>, sync: seq<int>, ghost k: nat, i: nat)
    requires Codes(h, words) && InLexicon(items, |words|) && bf.Valid() && |sync| == k > 0
    requires (k - 1) * SYNCHRONIZATION <= i < |items|
    requires Open(words, items, start, bf.Written(), (k - 1) * SYNCHRONIZATION, i)
    requires forall j :: 0 <= j < k - 1 ==> BlockAt(words, items, bf.file, sync[j], j)
    modifies bf
    ensures bf.Valid() && old(bf.file) <= bf.file
    ensures Open(words, items, start, bf.Written(), (k - 1) * SYNCHRONIZATION, i + 1)
    ensures forall j :: 0 <= j < k - 1 ==> BlockAt(words, items, bf.file, sync[j], j)
  {
    hide BFile.Written, BytesBits, BitsOf, CodeBits, BlockAt, CodeOf, WellFormed, Open, Pow2;
    var w := words[items[i]];
    CodeFits(h, w, items[i]);
    ghost var before, file := bf.Written(), bf.file;
    var ok := bf.WriteWord(w.code, w.len);
    BlockGrows(words, items, start, before, (k - 1) * SYNCHRONIZATION, i);
    forall j | 0 <= j < k - 1 ensures BlockAt(words, items, bf.file, sync[j], j) {
      BlockStays(words, items, file, bf.file, sync[j], j);
    }
  }

  lemma BlockOpens(bf: BFile, words: seq<Word>, items: seq<int>, i: nat)
    requires bf.bitsInBuf == 0 && InLexicon(items, |words|) && i <= |items|
    ensures Open(words, items, bf.file, bf.Written(), i, i)
  {
    NoBits(bf.buf);
    assert items[i..i] == [];
  }

  lemma BlockGrows(words: seq<Word>, items: seq<int>, start: seq<Byte>, written: Bits, from: nat, i: nat)
    requires InLexicon(items, |words|) && from <= i < |items| && Open(words, items, start, written, from, i)
    ensures var w := words[items[i]];
            Open(words, items, start, written + BitsOf(w.code, w.len), from, i + 1)
  {
    hide BitsOf;
    assert items[from..i + 1] == items[from..i] + [items[i]];
    OneMoreCode(words, items[from..i], items[i]);
  }

  lemma {:induction false} OneMoreCode(words: seq<Word>, s: seq<int>, id: int)
    requires InLexicon(s, |words|) && 0 <= id < |words|
    ensures CodeBits(words, s + [id]) == CodeBits(words, s) + BitsOf(words[id].code, words[id].len)
  {
    hide BitsOf;
    if s == [] {
      assert [id][1..] == [];
    } else {
      assert (s + [id])[1..] == s[1..] + [id];
      OneMoreCode(words, s[1..], id);
    }
  }

  /** The flush that ends block `k - 1`. */
  method FlushBlock(words: seq<Word>, items: seq<int>, bf: BFile, ghost start: seq<Byte>, sync: seq<int>, ghost k: nat)
    requires InLexicon(items, |words|) && bf.Valid() && |sync| == k > 0
    requires (k - 1) * SYNCHRONIZATION < |items| && start <= bf.file && |start| == sync[k - 1]
    requires Open(words, items, start, bf.Written(), (k - 1) * SYNCHRONIZATION, BlockEnd(|items|, k - 1))
    requires forall j :: 0 <= j < k - 1 ==> BlockAt(words, items, bf.file, sync[j], j)
    requires BlocksDone(words, items, bf.file, sync)
    modifies bf
    ensures bf.Valid() && bf.bitsInBuf == 0 && old(bf.file) <= bf.file
    ensures forall j :: 0 <= j < k ==> BlockAt(words, items, bf.file, sync[j], j)
    ensures BlocksDone(words, items, bf.file, sync) && BlockLaid(words, items, bf.file, sync[k - 1], |bf.file|, k - 1)
  {
    hide BytesBits, BitsOf, BFile.Written, BlocksDone;
    ghost var part := items[(k - 1) * SYNCHRONIZATION..BlockEnd(|items|, k - 1)];
    ghost var w, file := bf.Written(), bf.file;
    bf.Flush();
    assert bf.file == start + bf.file[|start|..];
    BytesAppend(start, bf.file[|start|..]);
    assert w <= BytesBits(bf.file);
    PrefixRest(BytesBits(start), CodeBits(words, part), BytesBits(bf.file[|start|..]));
    RestPadded(BytesBits(start), CodeBits(words, part), BytesBits(bf.file[|start|..]), 8 * |bf.file| - |w|);
    assert bf.file[|start|..|bf.file|] == bf.file[|start|..];
    DoneStays(words, items, file, bf.file, sync);
    forall j | 0 <= j < k ensures BlockAt(words, items, bf.file, sync[j], j) {
      if j < k - 1 { BlockStays(words, items, file, bf.file, sync[j], j); }
    }
  }

  lemma BlockStays(words: seq<Word>, items: seq<int>, cis: seq<Byte>, longer: seq<Byte>, offset: int, k: nat)
    requires InLexicon(items, |words|) && BlockAt(words, items, cis, offset, k) && cis <= longer
    ensures BlockAt(words, items, longer, offset, k)
  {
    assert longer[offset..] == cis[offset..] + longer[|cis|..];
    BytesAppend(cis[offset..], longer[|cis|..]);
  }

  lemma CodeFits(h: HCD, w: Word, id: int)
    requires WellFormed(h) && CodeOf(h, w, id)
    ensures w.len <= 32 && w.code < Pow2(32)
  {
    PowMonotone(w.len, 32);
  }
}
