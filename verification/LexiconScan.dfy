/** cl_regex2id: every lexicon string is matched, matches are recorded in a bitmap with one bit per
    id, and the bitmap is turned into the list of ids. */
module LexiconScan {
  import opened RegexSyntax
  import opened RegoptReaders
  import opened RegoptParse
  import opened RegoptSound
  import opened RegexMatch

  /** The ids below `n` whose string satisfies `p`, in ascending order. */
  function IdsBelow(lexicon: seq<Text>, p: Text -> bool, n: nat): (ids: seq<nat>)
    requires n <= |lexicon|
    ensures forall i :: i in ids <==> 0 <= i < n && p(lexicon[i])
    ensures forall k :: 0 <= k < |ids| ==> ids[k] < n
    ensures forall j, k :: 0 <= j < k < |ids| ==> ids[j] < ids[k]
  {
    if n == 0 then []
    else
      var ids := IdsBelow(lexicon, p, n - 1);
      if p(lexicon[n - 1]) then ids + [n - 1] else ids
  }

  /** `bitmap_mask` at position `k` of a byte. */
  function Mask(k: nat): bv8
    requires k < 8
  {
    (0x80 as bv8) >> k
  }

  predicate BitSet(bytes: seq<bv8>, i: nat)
    requires i / 8 < |bytes|
  {
    bytes[i / 8] & Mask(i % 8) != 0
  }

  lemma MaskBits(j: nat, k: nat, b: bv8)
    requires j < 8 && k < 8
    ensures Mask(j) != 0 && (b | Mask(j)) & Mask(j) != 0
    ensures j != k ==> (b | Mask(j)) & Mask(k) == b & Mask(k)
    ensures Mask(j) >> 1 == (if j == 7 then 0 else Mask(j + 1))
  {
    assert Mask(0) == 0x80 && Mask(1) == 0x40 && Mask(2) == 0x20 && Mask(3) == 0x10;
    assert Mask(4) == 0x08 && Mask(5) == 0x04 && Mask(6) == 0x02 && Mask(7) == 0x01;
    if j != k { DistinctMasks(Mask(j), Mask(k), b); }
  }

  lemma DistinctMasks(m: bv8, n: bv8, b: bv8)
    requires m & n == 0
    ensures (b | m) & n == b & n
  {
  }

  lemma StartMask()
    ensures Mask(0) == 0x80
  {
  }

  lemma Unset(bytes: seq<bv8>)
    requires forall k :: 0 <= k < |bytes| ==> bytes[k] == 0
    ensures forall i: nat :: i / 8 < |bytes| ==> !BitSet(bytes, i)
  {
  }

  /** The byte offset and mask of the next id. */
  method Advance(offset: nat, mask: bv8, ghost i: nat) returns (offset': nat, mask': bv8)
    requires offset == i / 8 && mask == Mask(i % 8)
    ensures offset' == (i + 1) / 8 && mask' == Mask((i + 1) % 8)
  {
    MaskBits(i % 8, 0, 0);
    offset', mask' := offset, mask >> 1;
    if mask' == 0 {
      MaskNonzero(i % 8);
      offset', mask' := offset + 1, 0x80;
    }
  }

  lemma MaskNonzero(k: nat)
    requires k < 8 && Mask(k) >> 1 == 0
    ensures k == 7
  {
    MaskBits(k, 0, 0);
    if k < 7 { MaskBits(k + 1, 0, 0); }
  }

  method SetBit(bitmap: array<bv8>, offset: nat, mask: bv8, ghost idx: nat)
    requires offset == idx / 8 < bitmap.Length && mask == Mask(idx % 8)
    modifies bitmap
    ensures forall i: nat :: i / 8 < bitmap.Length ==> (BitSet(bitmap[..], i) <==> i == idx || old(BitSet(bitmap[..], i)))
  {
    bitmap[offset] := bitmap[offset] | mask;
    forall i: nat | i / 8 < bitmap.Length
      ensures BitSet(bitmap[..], i) <==> i == idx || old(BitSet(bitmap[..], i))
    {
      MaskBits(idx % 8, i % 8, old(bitmap[offset]));
    }
  }

  /** The scanning loop: bit `i` is set exactly when the string of id `i` matched. */
  method ScanLexicon(lexicon: seq<Text>, rx: Regex, bitmap: array<bv8>) returns (count: nat)
    requires rx.Valid() && bitmap.Length == (|lexicon| + 7) / 8 && bitmap as object != rx.jumptable as object
    requires forall k :: 0 <= k < bitmap.Length ==> bitmap[k] == 0
    requires forall w :: rx.needle(w) ==> Passes(rx.Set(), w)
    modifies rx`successes, bitmap
    ensures forall i :: 0 <= i < |lexicon| ==> (BitSet(bitmap[..], i) <==> rx.needle(lexicon[i]))
    ensures count == |IdsBelow(lexicon, rx.needle, |lexicon|)|
  {
    hide Passes, Regex.Valid, BitSet, Mask;
    ghost var filter_ := rx.Set();
    StartMask();
    Unset(bitmap[..]);
    count := 0;
    var offset, mask: bv8 := 0, 0x80;
    for idx := 0 to |lexicon|
      invariant rx.Valid() && rx.Set() == filter_
      invariant offset == idx / 8 && mask == Mask(idx % 8)
      invariant forall i :: 0 <= i < idx ==> (BitSet(bitmap[..], i) <==> rx.needle(lexicon[i]))
      invariant forall i :: idx <= i < |lexicon| ==> !BitSet(bitmap[..], i)
      invariant count == |IdsBelow(lexicon, rx.needle, idx)|
    {
      var matched := rx.Match(lexicon[idx], true);
      if matched {
        SetBit(bitmap, offset, mask, idx);
        count := count + 1;
      }
      offset, mask := Advance(offset, mask, idx);
    }
  }

  /** The loop that lists the set bits. */
  method ListIds(lexicon: seq<Text>, ghost p: Text -> bool, bitmap: array<bv8>) returns (table: seq<nat>)
    requires bitmap.Length == (|lexicon| + 7) / 8
    requires forall i :: 0 <= i < |lexicon| ==> (BitSet(bitmap[..], i) <==> p(lexicon[i]))
    ensures table == IdsBelow(lexicon, p, |lexicon|)
  {
    table := [];
    var offset, mask: bv8 := 0, 0x80;
    for i := 0 to |lexicon|
      invariant offset == i / 8 && mask == Mask(i % 8)
      invariant table == IdsBelow(lexicon, p, i)
    {
      assert BitSet(bitmap[..], i) <==> bitmap[offset] & mask != 0;
      if bitmap[offset] & mask != 0 {
        table := table + [i];
      }
      offset, mask := Advance(offset, mask, i);
    }
  }

  /** Under the hypotheses of NewRegex the result is the list of ids whose strings the engine
      matches, whatever the optimiser did. */
  method Regex2Id(lexicon: seq<Text>, regex: Text, needle: Text -> bool, ghost lang: Lang, ghost a: Alts)
    returns (table: seq<nat>)
    requires OkAlts(a) && PAlts(a) == regex && Regular(a) && EndTrusted(a)
    requires forall w :: needle(w) <==> InAlts(lang, a, w)
    ensures table == IdsBelow(lexicon, needle, |lexicon|)
  {
    hide OkAlts, PAlts, Regular, EndTrusted, InAlts, Analyse, CutAll, Regex.Valid, Passes;
    var rx := NewRegex(regex, needle, lang, a);
    var bitmap := new bv8[(|lexicon| + 7) / 8](_ => 0);
    var count := ScanLexicon(lexicon, rx, bitmap);
    table := [];
    if count != 0 {
      table := ListIds(lexicon, needle, bitmap);
    }
  }
}
