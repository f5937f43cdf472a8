/** The hash tables of the CL: cl_lexhash (cl/lexhash.c) with string keys and cl_ngram_hash
    (cl/ngram-hash.c) with integer n-grams.  The two files differ only in the key type, the amount
    that an addition counts, and the traversals each of them offers. */
module LexHash {
  import opened Primes

  const MAX_BUCKETS: int := 1000000007
  const DEFAULT_NR_OF_BUCKETS: int := 250000

  /** A link of a bucket; the `next` pointers are the order of the bucket's sequence. */
  datatype Entry<K> = Entry(key: K, id: int, freq: int)

  /** What the table associates with a key. */
  datatype Item = Item(id: int, freq: int)

  type Bucket<K> = seq<Entry<K>>
  type Buckets<K> = seq<Bucket<K>>

  ghost predicate HasKey<K>(bucket: Bucket<K>, k: K) {
    exists i :: 0 <= i < |bucket| && bucket[i].key == k
  }

  ghost predicate DistinctKeys<K>(bucket: Bucket<K>) {
    forall i, j :: 0 <= i < j < |bucket| ==> bucket[i].key != bucket[j].key
  }

  ghost predicate Agrees<K>(e: Entry<K>, m: map<K, Item>) {
    e.key in m && m[e.key] == Item(e.id, e.freq)
  }

  /** One bucket of a table that stands for `m`: only keys that hash to it, each at most once. */
  ghost predicate BucketOk<K>(bucket: Bucket<K>, b: int, n: nat, hash: K -> nat, m: map<K, Item>)
    requires n > 0
  {
    DistinctKeys(bucket) &&
    forall i :: 0 <= i < |bucket| ==> Agrees(bucket[i], m) && hash(bucket[i].key) % n == b
  }

  /** The table stands for `m`: every key is in its own bucket, and nothing else is. */
  ghost predicate Represents<K(!new)>(t: Buckets<K>, hash: K -> nat, m: map<K, Item>) {
    |t| > 0 &&
    (forall b :: 0 <= b < |t| ==> BucketOk(t[b], b, |t|, hash, m)) &&
    forall k :: k in m ==> HasKey(t[hash(k) % |t|], k)
  }

  ghost predicate UniqueIds<K>(m: map<K, Item>, nextId: int) {
    (forall k :: k in m ==> 0 <= m[k].id < nextId) &&
    forall k, l :: k in m && l in m && m[k].id == m[l].id ==> k == l
  }

  // ----- one bucket changes

  /** If a bucket gets the keys it should have, and the other keys are as before, so is the table. */
  lemma ReplaceBucket<K(!new)>(t: Buckets<K>, hash: K -> nat, m: map<K, Item>, n: map<K, Item>, b: nat, bucket: Bucket<K>)
    requires Represents(t, hash, m) && b < |t|
    requires BucketOk(bucket, b, |t|, hash, n)
    requires forall k :: hash(k) % |t| != b ==> (k in m <==> k in n) && (k in m ==> m[k] == n[k])
    requires forall k :: k in n && hash(k) % |t| == b ==> HasKey(bucket, k)
    ensures Represents(t[b := bucket], hash, n)
  {
    hide HasKey, DistinctKeys;
    var s := t[b := bucket];
    forall c | 0 <= c < |s| ensures BucketOk(s[c], c, |s|, hash, n) {
      assert c != b ==> BucketOk(t[c], c, |t|, hash, m);
    }
  }

  lemma AppendEntry<K(!new)>(t: Buckets<K>, hash: K -> nat, m: map<K, Item>, e: Entry<K>, bucket: Bucket<K>)
    requires Represents(t, hash, m) && e.key !in m
    requires var b := hash(e.key) % |t|; bucket == t[b] + [e] || bucket == [e] + t[b]
    ensures Represents(t[hash(e.key) % |t| := bucket], hash, m[e.key := Item(e.id, e.freq)])
  {
    var b := hash(e.key) % |t|;
    var n := m[e.key := Item(e.id, e.freq)];
    assert BucketOk(t[b], b, |t|, hash, m);
    forall k | k in n && hash(k) % |t| == b ensures HasKey(bucket, k) {
      var at := if bucket == t[b] + [e] then 0 else 1;
      if k == e.key {
        assert bucket[if at == 0 then |t[b]| else 0] == e;
      } else {
        assert HasKey(t[b], k);
        var i :| 0 <= i < |t[b]| && t[b][i].key == k;
        assert bucket[i + at] == t[b][i];
      }
    }
    ReplaceBucket(t, hash, m, n, b, bucket);
  }

  lemma UpdateEntry<K(!new)>(t: Buckets<K>, hash: K -> nat, m: map<K, Item>, b: nat, i: nat, freq: int)
    requires Represents(t, hash, m) && b < |t| && i < |t[b]|
    ensures var e := t[b][i];
            hash(e.key) % |t| == b && Agrees(e, m) &&
            Represents(t[b := t[b][i := e.(freq := freq)]], hash, m[e.key := Item(e.id, freq)])
  {
    var e := t[b][i];
    var bucket := t[b][i := e.(freq := freq)];
    var n := m[e.key := Item(e.id, freq)];
    assert BucketOk(t[b], b, |t|, hash, m);
    assert forall j :: 0 <= j < |bucket| ==> bucket[j].key == t[b][j].key;
    forall k | k in n && hash(k) % |t| == b ensures HasKey(bucket, k) {
      assert HasKey(t[b], k);
      var j :| 0 <= j < |t[b]| && t[b][j].key == k;
      assert bucket[j].key == k;
    }
    ReplaceBucket(t, hash, m, n, b, bucket);
  }

  lemma RemoveEntry<K(!new)>(t: Buckets<K>, hash: K -> nat, m: map<K, Item>, b: nat, i: nat)
    requires Represents(t, hash, m) && b < |t| && i < |t[b]|
    ensures var e := t[b][i];
            Agrees(e, m) && Represents(t[b := t[b][..i] + t[b][i + 1..]], hash, m - {e.key})
  {
    var e := t[b][i];
    var bucket := t[b][..i] + t[b][i + 1..];
    var n := m - {e.key};
    assert BucketOk(t[b], b, |t|, hash, m);
    assert forall j :: 0 <= j < |bucket| ==> bucket[j] == t[b][if j < i then j else j + 1];
    forall k | k in n && hash(k) % |t| == b ensures HasKey(bucket, k) {
      assert HasKey(t[b], k);
      var j :| 0 <= j < |t[b]| && t[b][j].key == k;
      assert bucket[if j < i then j else j - 1].key == k;
    }
    ReplaceBucket(t, hash, m, n, b, bucket);
  }

  lemma RemovedSize<K>(m: map<K, Item>, k: K)
    requires k in m
    ensures |m - {k}| == |m| - 1
  {
    assert (m - {k}).Keys == m.Keys - {k};
    assert |m.Keys| == |m| && |(m - {k}).Keys| == |m - {k}|;
  }

  // ----- the order of a traversal

  /** All entries, bucket by bucket. */
  function Flatten<K>(t: Buckets<K>): seq<Entry<K>> {
    if t == [] then [] else t[0] + Flatten(t[1..])
  }

  lemma FlattenFrom<K>(t: Buckets<K>, b: nat)
    requires b < |t|
    ensures Flatten(t[b..]) == t[b] + Flatten(t[b + 1..])
  {
    assert t[b..][1..] == t[b + 1..];
  }

  /** A list with one entry for each key of `m` in buckets `from` and later. */
  ghost predicate Enumerates<K(!new)>(s: seq<Entry<K>>, n: nat, hash: K -> nat, m: map<K, Item>, from: int)
    requires n > 0
  {
    DistinctKeys(s) &&
    (forall i :: 0 <= i < |s| ==> Agrees(s[i], m) && hash(s[i].key) % n >= from) &&
    forall k :: k in m && hash(k) % n >= from ==> HasKey(s, k)
  }

  lemma {:induction false} FlattenEnumerates<K(!new)>(t: Buckets<K>, hash: K -> nat, m: map<K, Item>, from: nat)
    requires Represents(t, hash, m) && from <= |t|
    ensures Enumerates(Flatten(t[from..]), |t|, hash, m, from)
    decreases |t| - from
  {
    if from == |t| {
      assert Flatten(t[from..]) == [];
    } else {
      FlattenEnumerates(t, hash, m, from + 1);
      FlattenFrom(t, from);
      PrependBucket(t[from], Flatten(t[from + 1..]), |t|, hash, m, from);
    }
  }

  lemma PrependBucket<K(!new)>(bucket: Bucket<K>, s: seq<Entry<K>>, n: nat, hash: K -> nat, m: map<K, Item>, b: int)
    requires n > 0 && BucketOk(bucket, b, n, hash, m) && Enumerates(s, n, hash, m, b + 1)
    requires forall k :: k in m && hash(k) % n == b ==> HasKey(bucket, k)
    ensures Enumerates(bucket + s, n, hash, m, b)
  {
    var r := bucket + s;
    forall k | k in m && hash(k) % n >= b ensures HasKey(r, k) {
      if hash(k) % n == b {
        var i :| 0 <= i < |bucket| && bucket[i].key == k;
        assert r[i].key == k;
      } else {
        var i :| 0 <= i < |s| && s[i].key == k;
        assert r[|bucket| + i].key == k;
      }
    }
  }

  lemma {:induction false} DistinctCount<K(!new)>(s: seq<Entry<K>>, m: map<K, Item>)
    requires DistinctKeys(s) && (forall i :: 0 <= i < |s| ==> s[i].key in m) && forall k :: k in m ==> HasKey(s, k)
    ensures |s| == |m|
  {
    if s == [] {
      assert forall k :: k in m ==> HasKey(s, k);
      assert m == map[];
    } else {
      var last := |s| - 1;
      var k := s[last].key;
      forall l | l in m - {k} ensures HasKey(s[..last], l) {
        var i :| 0 <= i < |s| && s[i].key == l;
        assert s[..last][i].key == l;
      }
      DistinctCount(s[..last], m - {k});
      RemovedSize(m, k);
    }
  }

  /** A list of the whole map: every key exactly once, with what the map associates with it. */
  ghost predicate Lists<K(!new)>(s: seq<Entry<K>>, m: map<K, Item>) {
    DistinctKeys(s) && |s| == |m| && (forall i :: 0 <= i < |s| ==> Agrees(s[i], m)) &&
    forall k :: k in m ==> HasKey(s, k)
  }

  lemma Traversal<K(!new)>(t: Buckets<K>, hash: K -> nat, m: map<K, Item>)
    requires Represents(t, hash, m)
    ensures Lists(Flatten(t), m) && |Flatten(t)| == |m|
  {
    hide Flatten;
    assert t[0..] == t;
    FlattenEnumerates(t, hash, m, 0);
    DistinctCount(Flatten(t), m);
  }

  /** Buckets among the first `i` with exactly `n` entries, or at least `n`. */
  function CountBuckets<K>(t: Buckets<K>, i: nat, n: nat, orMore: bool): nat
    requires i <= |t|
  {
    if i == 0 then 0
    else CountBuckets(t, i - 1, n, orMore) + if |t[i - 1]| == n || (orMore && |t[i - 1]| > n) then 1 else 0
  }

  ghost function BucketsOfSize<K>(t: Buckets<K>, i: nat, n: nat, orMore: bool): set<nat>
    requires i <= |t|
  {
    set b: nat | b < i && (|t[b]| == n || (orMore && |t[b]| > n))
  }

  lemma {:induction false} CountIsSize<K>(t: Buckets<K>, i: nat, n: nat, orMore: bool)
    requires i <= |t|
    ensures CountBuckets(t, i, n, orMore) == |BucketsOfSize(t, i, n, orMore)|
  {
    if i > 0 {
      var hit := |t[i - 1]| == n || (orMore && |t[i - 1]| > n);
      CountIsSize(t, i - 1, n, orMore);
      assert BucketsOfSize(t, i, n, orMore) == BucketsOfSize(t, i - 1, n, orMore) + if hit then {i - 1} else {};
    }
  }

  // ----- runs of operations

  datatype Op<K> = Add(key: K, f: int) | Del(key: K)

  /** Frequencies after a run of operations. */
  function After<K>(m: map<K, int>, ops: seq<Op<K>>): map<K, int>
    decreases |ops|
  {
    if ops == [] then m else Apply(After(m, ops[..|ops| - 1]), ops[|ops| - 1])
  }

  function Apply<K>(m: map<K, int>, op: Op<K>): map<K, int> {
    match op
    case Add(key, f) => m[key := (if key in m then m[key] else 0) + f]
    case Del(key) => m - {key}
  }

  lemma AfterStep<K>(m: map<K, int>, ops: seq<Op<K>>, i: nat)
    requires i < |ops|
    ensures After(m, ops[..i + 1]) == Apply(After(m, ops[..i]), ops[i])
  {
    assert ops[..i + 1][..i] == ops[..i];
  }

  predicate Mentions<K(==)>(ops: seq<Op<K>>, k: K) {
    exists i :: 0 <= i < |ops| && ops[i].key == k
  }

  predicate Deletes<K(==)>(ops: seq<Op<K>>, k: K) {
    exists i :: 0 <= i < |ops| && ops[i] == Del(k)
  }

  function Added<K(==)>(ops: seq<Op<K>>, k: K): int {
    if ops == [] then 0
    else Added(ops[..|ops| - 1], k) + match ops[|ops| - 1] case Add(key, f) => (if key == k then f else 0) case Del(_) => 0
  }

  /** After a deletion, a key is in the table exactly if it was added again, with the sum added since. */
  lemma {:induction false} FrequencySinceDeletion<K(!new)>(m: map<K, int>, before: seq<Op<K>>, since: seq<Op<K>>, k: K)
    requires !Deletes(since, k)
    ensures var r := After(m, before + [Del(k)] + since);
            (k in r <==> Mentions(since, k)) && (k in r ==> r[k] == Added(since, k)) && (!Mentions(since, k) ==> Added(since, k) == 0)
    decreases |since|
  {
    var ops := before + [Del(k)] + since;
    if since == [] {
      assert ops[|ops| - 1] == Del(k);
    } else {
      var last := |since| - 1;
      assert ops[..|ops| - 1] == before + [Del(k)] + since[..last] && ops[|ops| - 1] == since[last];
      assert !Deletes(since[..last], k) by {
        assert forall i :: 0 <= i < last ==> since[..last][i] == since[i];
      }
      FrequencySinceDeletion(m, before, since[..last], k);
      MentionsLast(since, k);
    }
  }

  lemma MentionsLast<K>(ops: seq<Op<K>>, k: K)
    requires |ops| > 0
    ensures Mentions(ops, k) <==> Mentions(ops[..|ops| - 1], k) || ops[|ops| - 1].key == k
  {
    var front := ops[..|ops| - 1];
    if Mentions(ops, k) && ops[|ops| - 1].key != k {
      var i :| 0 <= i < |ops| && ops[i].key == k;
      assert front[i].key == k;
    }
    if Mentions(front, k) {
      var i :| 0 <= i < |front| && front[i].key == k;
      assert ops[i].key == k;
    }
  }

  /** The frequencies of a table's contents. */
  function FreqsOf<K>(m: map<K, Item>): map<K, int> {
    map k | k in m :: m[k].freq
  }

  /** `m` with `f` more occurrences of `k`, which gets the id `id` if it is new. */
  function Counted<K>(m: map<K, Item>, k: K, f: int, id: int): map<K, Item> {
    m[k := if k in m then Item(m[k].id, m[k].freq + f) else Item(id, f)]
  }

  // ----- fill rates, over the reals

  lemma RealMul(a: real, b: real, c: real)
    requires c > 0.0
    ensures a > b <==> a * c > b * c
  {
    assert (a - b) * c == a * c - b * c;
    assert a > b ==> (a - b) * c > 0.0;
    assert a < b ==> (b - a) * c > 0.0;
  }

  /** The average number of entries in a bucket does not exceed the limit. */
  predicate WithinLimit(entries: int, limit: real, buckets: int) {
    entries as real <= limit * buckets as real
  }

  /** The number of buckets that gives the target fill rate. */
  function TargetSize(entries: int, target: real): int
    requires target > 0.0
  {
    (entries as real / target).Floor
  }

  lemma FillRate(entries: int, buckets: int, limit: real)
    requires entries >= 0 && buckets > 0
    ensures entries as real / buckets as real > limit <==> !WithinLimit(entries, limit, buckets)
  {
    var r := entries as real / buckets as real;
    assert r * buckets as real == entries as real;
    RealMul(r, limit, buckets as real);
  }

  /** An overfull table is given at least twice as many buckets. */
  lemma TargetDoubles(entries: int, buckets: int, limit: real, target: real)
    requires entries >= 0 && buckets > 0 && 0.0 < 2.0 * target <= limit
    requires !WithinLimit(entries, limit, buckets)
    ensures TargetSize(entries, target) >= 2 * buckets
  {
    var q := entries as real / target;
    assert q * target == entries as real;
    assert limit * buckets as real >= 2.0 * target * buckets as real by {
      assert (limit - 2.0 * target) * buckets as real >= 0.0;
    }
    assert q * target > (2 * buckets) as real * target;
    RealMul(q, (2 * buckets) as real, target);
  }

  /** With the target number of buckets or more, the fill rate is back under the limit. */
  lemma NewFillRate(entries: int, target: real, limit: real, buckets: int)
    requires entries >= 0 && 0.0 < 2.0 * target <= limit
    requires buckets >= TargetSize(entries, target) && buckets >= 1
    ensures WithinLimit(entries, limit, buckets)
  {
    var q := entries as real / target;
    assert q * target == entries as real;
    assert q <= buckets as real + 1.0 <= 2.0 * buckets as real;
    assert q * target <= 2.0 * buckets as real * target by { assert (2.0 * buckets as real - q) * target >= 0.0; }
    assert 2.0 * target * buckets as real <= limit * buckets as real by {
      assert (limit - 2.0 * target) * buckets as real >= 0.0;
    }
  }

  /** What find_prime makes of a number of buckets. */
  ghost predicate NextSize(m: int, n: int) {
    m >= n && PassesTest(m) && forall k :: n <= k < m ==> !PassesTest(k)
  }

  class HashTable<K(!new, ==)> {
    const hash: K -> nat
    var table: Buckets<K>
    var nextId: int
    var entries: int
    var autoGrow: bool
    var fillrateLimit: real
    var fillrateTarget: real
    // the iterator: the current bucket and what is left of it
    var iterBucket: int
    var iterRest: Bucket<K>
    /** The finite map that the table stands for. */
    ghost var contents: map<K, Item>

    ghost predicate Valid()
      reads this
    {
      Represents(table, hash, contents) && UniqueIds(contents, nextId) && entries == |contents| && nextId >= 0 &&
      0.0 < 2.0 * fillrateTarget <= fillrateLimit
    }

    /** The fill rate is within the limit. */
    ghost predicate Balanced()
      reads this
    {
      autoGrow ==> WithinLimit(entries, fillrateLimit, |table|)
    }

    /** cl_new_lexhash and cl_new_ngram_hash, which differ in the default fill rates. */
    constructor (hash: K -> nat, buckets: int, limit: real, target: real)
      requires 0.0 < 2.0 * target <= limit
      ensures Valid() && Balanced() && contents == map[] && autoGrow && nextId == 0 && iterBucket == -1
      ensures this.hash == hash && fillrateLimit == limit && fillrateTarget == target
      ensures NextSize(|table|, if buckets <= 0 then 250000 else buckets)
    {
      hide Represents, PassesTest, WithinLimit, UniqueIds;
      this.hash := hash;
      var p := FindPrime(if buckets <= 0 then DEFAULT_NR_OF_BUCKETS else buckets);
      table := seq(p, _ => []);
      nextId, entries := 0, 0;
      autoGrow, fillrateLimit, fillrateTarget := true, limit, target;
      iterBucket, iterRest := -1, [];
      contents := map[];
      new;
      EmptyTable(table, hash, limit);
    }

    /** cl_lexhash_auto_grow_fillrate. */
    method AutoGrowFillrate(limit: real, target: real)
      requires Valid()
      modifies this`fillrateLimit, this`fillrateTarget
      ensures Valid() && fillrateTarget >= 0.01 && fillrateLimit >= 2.0 * fillrateTarget
      ensures if target > 0.01 then fillrateTarget == target else fillrateTarget == 0.01
      ensures fillrateLimit == limit || (limit <= 2.0 * fillrateTarget && fillrateLimit == 2.0 * fillrateTarget)
    {
      hide Represents;
      fillrateTarget := if target > 0.01 then target else 0.01;
      fillrateLimit := if limit > 2.0 * fillrateTarget then limit else 2.0 * fillrateTarget;
    }

    /** cl_lexhash_find_i: the bucket of a key, and the place of its entry there. */
    method Find(key: K) returns (offset: nat, i: nat)
      requires Valid()
      ensures offset < |table| && offset == hash(key) % |table| && i <= |table[offset]|
      ensures i < |table[offset]| <==> key in contents
      ensures i < |table[offset]| ==>
                table[offset][i].key == key && contents[key] == Item(table[offset][i].id, table[offset][i].freq)
    {
      offset := hash(key) % |table|;
      i := 0;
      while i < |table[offset]| && table[offset][i].key != key
        invariant i <= |table[offset]| && forall j :: 0 <= j < i ==> table[offset][j].key != key
      {
        i := i + 1;
      }
      assert BucketOk(table[offset], offset, |table|, hash, contents);
      assert i < |table[offset]| ==> Agrees(table[offset][i], contents);
      assert key in contents ==> HasKey(table[offset], key);
    }

    /** cl_lexhash_id and cl_lexhash_freq. */
    method Lookup(key: K) returns (id: int, freq: int)
      requires Valid()
      ensures if key in contents then contents[key] == Item(id, freq) else id == -1 && freq == 0
    {
      hide Represents, UniqueIds;
      var offset, i := Find(key);
      if i < |table[offset]| { return table[offset][i].id, table[offset][i].freq; }
      return -1, 0;
    }

    /** cl_lexhash_add (`f` is 1) and cl_ngram_hash_add. */
    method Add(key: K, f: int)
      requires Valid()
      modifies this`table, this`nextId, this`entries, this`autoGrow, this`contents
      ensures Valid() && (key !in old(contents) || old(Balanced()) ==> Balanced())
      ensures contents == old(contents)[key := if key in old(contents) then Item(old(contents)[key].id, old(contents)[key].freq + f)
                                               else Item(old(nextId), f)]
      ensures key in old(contents) || old(entries + 1) as real <= fillrateLimit * old(|table|) as real ==>
                |table| == old(|table|) && autoGrow == old(autoGrow)
      ensures nextId == old(nextId) + if key in old(contents) then 0 else 1
    {
      hide Represents, UniqueIds;
      var offset, i := Find(key);
      if i < |table[offset]| {
        UpdateEntry(table, hash, contents, offset, i, table[offset][i].freq + f);
        KeepIds(contents, key, table[offset][i].freq + f, nextId);
        table := table[offset := table[offset][i := table[offset][i].(freq := table[offset][i].freq + f)]];
        contents := contents[key := Item(contents[key].id, contents[key].freq + f)];
      } else {
        AppendEntry(table, hash, contents, Entry(key, nextId, f), table[offset] + [Entry(key, nextId, f)]);
        NewId(contents, key, f, nextId);
        table := table[offset := table[offset] + [Entry(key, nextId, f)]];
        contents := contents[key := Item(nextId, f)];
        nextId := nextId + 1;
        entries := entries + 1;
        if autoGrow && entries as real > fillrateLimit * |table| as real {
          var grown, ok := CheckGrow();
        }
      }
    }

    /** cl_lexhash_check_grow.  `ok` is the consistency check on the number of moved entries. */
    method CheckGrow() returns (grown: bool, ok: bool)
      requires Valid()
      modifies this`table, this`autoGrow
      ensures Valid() && ok && Balanced()
      ensures grown ==> old(autoGrow) && entries as real > fillrateLimit * old(|table|) as real
      ensures grown && autoGrow ==> |table| >= 2 * old(|table|) && PassesTest(|table|)
      ensures grown && !autoGrow ==> |table| >= MAX_BUCKETS && PassesTest(|table|)
      ensures !grown ==> table == old(table)
      ensures !(old(autoGrow) && entries as real > fillrateLimit * old(|table|) as real) ==> !grown && autoGrow == old(autoGrow)
      ensures old(autoGrow) && entries as real > fillrateLimit * old(|table|) as real ==>
                var target := (entries as real / fillrateTarget).Floor;
                if target <= 1000000007 then grown && autoGrow && NextSize(|table|, target)
                else !autoGrow && grown == (2 * old(|table|) <= target) && (grown ==> NextSize(|table|, 1000000007))
    {
      hide Represents, UniqueIds, PassesTest;
      NonEmpty(table, hash, contents);
      var grow, target := PlanGrowth();
      if grow {
        var newBuckets := FindPrime(target);
        var t, count := Rehash(newBuckets);
        if count != entries { return true, false; }
        table := t;
        if autoGrow { NewFillRate(entries, fillrateTarget, fillrateLimit, newBuckets); }
        return true, true;
      }
      return false, true;
    }

    /** The first part of cl_lexhash_check_grow: whether to grow, and to how many buckets at least. */
    method PlanGrowth() returns (grow: bool, target: int)
      requires |table| > 0 && entries >= 0 && 0.0 < 2.0 * fillrateTarget <= fillrateLimit
      modifies this`autoGrow
      ensures grow ==> old(autoGrow) && !WithinLimit(entries, fillrateLimit, |table|)
      ensures !(old(autoGrow) && !WithinLimit(entries, fillrateLimit, |table|)) ==> !grow && autoGrow == old(autoGrow)
      ensures old(autoGrow) && !WithinLimit(entries, fillrateLimit, |table|) ==>
                var t := TargetSize(entries, fillrateTarget);
                if t <= MAX_BUCKETS then grow && autoGrow
                else !autoGrow && grow == (2 * |table| <= t)
      ensures grow && autoGrow ==> target >= 2 * |table| && target == TargetSize(entries, fillrateTarget)
      ensures grow && !autoGrow ==> target == MAX_BUCKETS
      ensures !grow ==> Balanced()
      ensures autoGrow ==> old(autoGrow)
    {
      var oldBuckets := |table|;
      var fillRate := entries as real / oldBuckets as real;
      FillRate(entries, oldBuckets, fillrateLimit);
      if !(autoGrow && fillRate > fillrateLimit) { return false, 0; }
      target := TargetSize(entries, fillrateTarget);
      TargetDoubles(entries, oldBuckets, fillrateLimit, fillrateTarget);
      if target > MAX_BUCKETS {
        autoGrow := false;
        if 2 * oldBuckets > target { return false, 0; }
        target := MAX_BUCKETS;
      }
      grow := true;
    }

    /** The loops of cl_lexhash_check_grow that move all entries to `n` new buckets. */
    method Rehash(n: nat) returns (t: Buckets<K>, count: int)
      requires Valid() && n > 0
      ensures |t| == n && Represents(t, hash, contents) && count == |contents|
    {
      t := seq(n, _ => []);
      count := 0;
      ghost var moved: map<K, Item> := map[];
      assert Represents(t, hash, moved);
      for idx := 0 to |table|
        invariant Represents(t, hash, moved) && |t| == n && count == |moved|
        invariant Moved(moved, contents, hash, |table|, idx, [])
      {
        var bucket := table[idx];
        t, count, moved := MoveBucket(t, count, moved, idx);
        AllMoved(table, hash, contents, moved, idx);
      }
      assert moved == contents;
    }

    /** Each entry of bucket `idx` goes to the front of its new bucket. */
    method MoveBucket(t0: Buckets<K>, count0: int, ghost moved0: map<K, Item>, idx: nat)
      returns (t: Buckets<K>, count: int, ghost moved: map<K, Item>)
      requires Valid() && idx < |table|
      requires Represents(t0, hash, moved0) && count0 == |moved0| && Moved(moved0, contents, hash, |table|, idx, [])
      ensures |t| == |t0| && Represents(t, hash, moved) && count == |moved|
      ensures Moved(moved, contents, hash, |table|, idx, table[idx])
    {
      t, count, moved := t0, count0, moved0;
      var bucket := table[idx];
      var n := |t0|;
      assert BucketOk(bucket, idx, |table|, hash, contents);
      for j := 0 to |bucket|
        invariant |t| == n && Represents(t, hash, moved) && count == |moved|
        invariant Moved(moved, contents, hash, |table|, idx, bucket[..j])
      {
        var e := bucket[j];
        MoveOne(bucket, j, moved, contents, hash, |table|, idx);
        var offset := hash(e.key) % n;
        AppendEntry(t, hash, moved, e, [e] + t[offset]);
        t := t[offset := [e] + t[offset]];
        moved := moved[e.key := Item(e.id, e.freq)];
        count := count + 1;
      }
      assert bucket[..|bucket|] == bucket;
    }

    /** cl_lexhash_del: the frequency of the deleted entry, 0 if there is none. */
    method Delete(key: K) returns (f: int)
      requires Valid()
      modifies this`table, this`entries, this`contents
      ensures Valid() && (old(Balanced()) ==> Balanced())
      ensures contents == old(contents) - {key}
      ensures f == if key in old(contents) then old(contents)[key].freq else 0
    {
      hide Represents, UniqueIds;
      var offset, i := Find(key);
      if i >= |table[offset]| {
        assert contents - {key} == contents;
        return 0;
      }
      f := table[offset][i].freq;
      RemoveEntry(table, hash, contents, offset, i);
      RemovedSize(contents, key);
      FewerIds(contents, key, nextId);
      table := table[offset := table[offset][..i] + table[offset][i + 1..]];
      entries := entries - 1;
      contents := contents - {key};
    }

    /** Any run of additions and deletions leaves the frequencies that the operations describe. */
    method Perform(ops: seq<Op<K>>)
      requires Valid()
      modifies this`table, this`nextId, this`entries, this`autoGrow, this`contents
      ensures Valid() && (old(Balanced()) ==> Balanced()) && FreqsOf(contents) == After(old(FreqsOf(contents)), ops)
      ensures entries == |contents| && nextId >= old(nextId)
    {
      hide Represents, UniqueIds, Balanced, After, Apply, FreqsOf;
      ghost var start := FreqsOf(contents);
      assert After(start, []) == start by { NoOps(start); }
      for i := 0 to |ops|
        invariant Valid() && (old(Balanced()) ==> Balanced()) && nextId >= old(nextId)
        invariant FreqsOf(contents) == After(start, ops[..i])
      {
        AfterStep(start, ops, i);
        ghost var m, id := contents, nextId;
        match ops[i] {
          case Add(key, f) =>
            Add(key, f);
            CountedFreqs(m, key, f, id);
          case Del(key) =>
            var f := Delete(key);
            DeletedFreqs(m, key);
        }
      }
      assert ops[..|ops|] == ops;
    }

    // ----- traversals

    lemma InOrder()
      requires Valid()
      ensures Lists(Flatten(table), contents) && |Flatten(table)| == entries
    {
      hide Flatten, Lists, UniqueIds;
      Traversal(table, hash, contents);
    }

    /** What the iterator has still to return. */
    ghost function Remaining(): seq<Entry<K>>
      reads this
    {
      iterRest + if 0 <= iterBucket + 1 < |table| then Flatten(table[iterBucket + 1..]) else []
    }

    /** cl_lexhash_iterator_reset. */
    method IteratorReset()
      modifies this`iterBucket, this`iterRest
      ensures Remaining() == Flatten(table) && iterBucket == -1
    {
      hide Flatten;
      iterBucket, iterRest := -1, [];
      FlattenEnd(table);
      assert table[0..] == table;
    }

    /** cl_lexhash_iterator_next; an empty result at the end. */
    method IteratorNext() returns (e: seq<Entry<K>>)
      requires iterBucket >= -1
      modifies this`iterBucket, this`iterRest
      ensures iterBucket >= -1
      ensures old(Remaining()) == e + Remaining() && |e| <= 1 && (e == [] ==> Remaining() == [])
    {
      hide Flatten;
      var point := iterRest;
      while point == []
        invariant iterBucket >= -1 && iterRest == old(iterRest)
        invariant old(Remaining()) == point + if iterBucket + 1 < |table| then Flatten(table[iterBucket + 1..]) else []
        decreases |table| - iterBucket
      {
        iterBucket := iterBucket + 1;
        if iterBucket >= |table| { return []; }
        point := table[iterBucket];
        FlattenFrom(table, iterBucket);
        FlattenEnd(table);
      }
      iterRest := point[1..];
      e := [point[0]];
    }

    /** A full iteration returns the entry of every key exactly once. */
    method IterateAll() returns (es: seq<Entry<K>>)
      requires Valid()
      modifies this`iterBucket, this`iterRest
      ensures Lists(es, contents)
    {
      hide *;
      InOrder();
      es := [];
      IteratorReset();
      ghost var order := Flatten(table);
      var more := true;
      while more
        invariant iterBucket >= -1 && es + Remaining() == order && (!more ==> Remaining() == [])
        decreases |Remaining()|, more
      {
        var e := IteratorNext();
        es := es + e;
        more := e != [];
      }
      assert es == order;
    }

    /** cl_ngram_hash_get_entries; `ok` is the conjunction of its two consistency checks. */
    method GetEntries(blank: Entry<K>) returns (result: array<Entry<K>>, ok: bool)
      requires Valid()
      ensures ok && result.Length == entries && Lists(result[..], contents)
    {
      hide *;
      InOrder();
      var size := entries;
      result := new Entry<K>[size](_ => blank);
      ghost var order := Flatten(table);
      var point := 0;
      ok := true;
      assert table[0..] == table;
      for offset := 0 to |table|
        invariant 0 <= point <= size == |order| && ok
        invariant result[..point] + Flatten(table[offset..]) == order
      {
        var bucket := table[offset];
        FlattenFrom(table, offset);
        ghost var later := Flatten(table[offset + 1..]);
        for k := 0 to |bucket|
          invariant 0 <= point <= size && ok
          invariant result[..point] + bucket[k..] + later == order
        {
          Fill(result[..point], bucket, k, later, order);
          if point >= size { return result, false; }
          ghost var filled := result[..point];
          result[point] := bucket[k];
          point := point + 1;
          assert result[..point] == filled + [bucket[k]];
        }
      }
      FlattenEnd(table);
      assert result[..point] == order;
      ok := point == size;
      assert result[..] == order;
    }

    /** cl_ngram_hash_stats: how many buckets hold 0, 1, ... entries; the last count is cumulative. */
    method Stats(maxN: nat) returns (stats: array<int>)
      requires maxN > 0
      ensures stats.Length == maxN + 1
      ensures forall n :: 0 <= n <= maxN ==>
                stats[n] == |set b: nat | b < |table| && if n < maxN then |table[b]| == n else |table[b]| >= maxN|
    {
      stats := new int[maxN + 1](_ => 0);
      for i := 0 to |table|
        invariant forall n :: 0 <= n <= maxN ==> stats[n] == CountBuckets(table, i, n, n == maxN)
      {
        var n := 0;
        var point := table[i];
        while point != []
          invariant n + |point| == |table[i]|
        {
          point := point[1..];
          n := n + 1;
        }
        if n >= maxN { stats[maxN] := stats[maxN] + 1; } else { stats[n] := stats[n] + 1; }
      }
      forall n | 0 <= n <= maxN
        ensures stats[n] == |set b: nat | b < |table| && if n < maxN then |table[b]| == n else |table[b]| >= maxN|
      {
        CountIsSize(table, |table|, n, n == maxN);
        assert BucketsOfSize(table, |table|, n, n == maxN) ==
               set b: nat | b < |table| && if n < maxN then |table[b]| == n else |table[b]| >= maxN;
      }
    }
  }

  // ----- steps of the methods above

  lemma NonEmpty<K(!new)>(t: Buckets<K>, hash: K -> nat, m: map<K, Item>)
    requires Represents(t, hash, m)
    ensures |t| > 0
  {
  }

  lemma FlattenEnd<K>(t: Buckets<K>)
    ensures Flatten(t[|t|..]) == []
  {
  }

  /** `moved` holds the keys of `m` in buckets before `idx`, and those of `part`. */
  ghost predicate Moved<K(!new)>(moved: map<K, Item>, m: map<K, Item>, hash: K -> nat, n: nat, idx: int, part: Bucket<K>)
    requires n > 0
  {
    (forall k :: k in moved ==> k in m && moved[k] == m[k]) &&
    forall k :: k in m ==> (k in moved <==> hash(k) % n < idx || HasKey(part, k))
  }

  lemma MoveOne<K(!new)>(bucket: Bucket<K>, j: nat, moved: map<K, Item>, m: map<K, Item>, hash: K -> nat, n: nat, idx: int)
    requires n > 0 && BucketOk(bucket, idx, n, hash, m) && j < |bucket| && Moved(moved, m, hash, n, idx, bucket[..j])
    ensures var e := bucket[j];
            e.key !in moved && Moved(moved[e.key := Item(e.id, e.freq)], m, hash, n, idx, bucket[..j + 1])
  {
    var e := bucket[j];
    forall k ensures HasKey(bucket[..j + 1], k) <==> HasKey(bucket[..j], k) || k == e.key {
      if HasKey(bucket[..j], k) {
        var i :| 0 <= i < j && bucket[..j][i].key == k;
        assert bucket[..j + 1][i].key == k;
      }
      if HasKey(bucket[..j + 1], k) && k != e.key {
        var i :| 0 <= i < j + 1 && bucket[..j + 1][i].key == k;
        assert bucket[..j][i].key == k;
      }
      assert bucket[..j + 1][j] == e;
    }
  }

  lemma AllMoved<K(!new)>(t: Buckets<K>, hash: K -> nat, m: map<K, Item>, moved: map<K, Item>, idx: nat)
    requires Represents(t, hash, m) && idx < |t| && Moved(moved, m, hash, |t|, idx, t[idx])
    ensures Moved(moved, m, hash, |t|, idx + 1, [])
  {
    assert BucketOk(t[idx], idx, |t|, hash, m);
    forall k | k in m ensures hash(k) % |t| < idx || HasKey(t[idx], k) <==> hash(k) % |t| < idx + 1 {
      if hash(k) % |t| == idx { assert HasKey(t[idx], k); }
    }
  }

  lemma KeepIds<K>(m: map<K, Item>, k: K, freq: int, nextId: int)
    requires UniqueIds(m, nextId) && k in m
    ensures UniqueIds(m[k := Item(m[k].id, freq)], nextId)
  {
  }

  lemma NewId<K>(m: map<K, Item>, k: K, freq: int, nextId: int)
    requires UniqueIds(m, nextId) && k !in m && nextId >= 0
    ensures UniqueIds(m[k := Item(nextId, freq)], nextId + 1)
  {
  }

  lemma FewerIds<K>(m: map<K, Item>, k: K, nextId: int)
    requires UniqueIds(m, nextId)
    ensures UniqueIds(m - {k}, nextId)
  {
  }

  lemma Fill<T>(filled: seq<T>, bucket: seq<T>, k: nat, later: seq<T>, order: seq<T>)
    requires k < |bucket| && filled + bucket[k..] + later == order
    ensures |filled| < |order| && (filled + [bucket[k]]) + bucket[k + 1..] + later == order
  {
    assert bucket[k..] == [bucket[k]] + bucket[k + 1..];
    assert (filled + [bucket[k]]) + bucket[k + 1..] == filled + bucket[k..];
  }

  lemma NoOps<K>(m: map<K, int>)
    ensures After(m, []) == m
  {
  }

  lemma CountedFreqs<K>(m: map<K, Item>, k: K, f: int, id: int)
    ensures FreqsOf(Counted(m, k, f, id)) == Apply(FreqsOf(m), Add(k, f))
  {
  }

  lemma DeletedFreqs<K>(m: map<K, Item>, k: K)
    ensures FreqsOf(m - {k}) == Apply(FreqsOf(m), Del(k))
  {
  }

  lemma EmptyTable<K(!new)>(t: Buckets<K>, hash: K -> nat, limit: real)
    requires |t| > 0 && (forall b :: 0 <= b < |t| ==> t[b] == []) && limit > 0.0
    ensures Represents(t, hash, map[]) && UniqueIds<K>(map[], 0) && WithinLimit(0, limit, |t|)
  {
    assert limit * |t| as real >= 0.0;
  }
}
