/** The attribute hash of the CQi server (CQi/server.c): open addressing with linear probing. */
module AttHash {

  datatype Option<T> = None | Some(value: T)

  /** A slot of the table; the string is set once and never cleared. */
  datatype AttBucket<K, A> = AttBucket(name: Option<K>, attribute: Option<A>, kind: int)

  const ATT_NONE: int := 0

  datatype Answer<A> = Found(attribute: A) | WrongType | NoSuchAttribute

  /** The slot where the probing for `key` ends if it may look at `i` slots from `p` on, or -1. */
  function Probe<K(==)>(names: seq<Option<K>>, p: nat, i: nat, key: K): (slot: int)
    requires 0 < |names|
    ensures -1 <= slot < |names|
    ensures slot >= 0 ==> names[slot] == None || names[slot] == Some(key)
    decreases i
  {
    if i == 0 then -1
    else
      var q := if p >= |names| then 0 else p;
      if names[q] == None || names[q] == Some(key) then q else Probe(names, q + 1, i - 1, key)
  }

  /** The slot of a key: at most a fifth of the table is probed. */
  function SlotOf<K(==)>(names: seq<Option<K>>, hash: K -> nat, key: K): int
    requires 0 < |names|
  {
    Probe(names, hash(key) % |names|, |names| / 5, key)
  }

  /** Slots may be filled, but what is in a slot stays there. */
  ghost predicate Extends<K>(names: seq<Option<K>>, later: seq<Option<K>>) {
    |names| == |later| && forall q :: 0 <= q < |names| && names[q].Some? ==> later[q] == names[q]
  }

  /** Every slot is where probing for its name ends. */
  ghost predicate Reachable<K(!new)>(names: seq<Option<K>>, hash: K -> nat) {
    0 < |names| && forall q :: 0 <= q < |names| && names[q].Some? ==> SlotOf(names, hash, names[q].value) == q
  }

  /** Filling other slots does not change where the probing for a key ends. */
  lemma {:induction false} ProbeStable<K>(names: seq<Option<K>>, later: seq<Option<K>>, p: nat, i: nat, key: K)
    requires 0 < |names| && Extends(names, later)
    requires var slot := Probe(names, p, i, key); slot >= 0 && later[slot] == Some(key)
    ensures Probe(later, p, i, key) == Probe(names, p, i, key)
    decreases i
  {
    var q := if p >= |names| then 0 else p;
    if !(names[q] == None || names[q] == Some(key)) {
      ProbeStable(names, later, q + 1, i - 1, key);
    }
  }

  /** Probing fails exactly if the first slots, cyclically, are all taken by other keys. */
  lemma {:induction false} ProbeFails<K>(names: seq<Option<K>>, p: nat, i: nat, key: K)
    requires 0 < |names| && p < |names| && i <= |names|
    ensures Probe(names, p, i, key) == -1 <==>
            forall d :: 0 <= d < i ==> names[Cyclic(p, d, |names|)].Some? && names[Cyclic(p, d, |names|)] != Some(key)
    decreases i
  {
    if i > 0 {
      var taken := names[p].Some? && names[p] != Some(key);
      assert Cyclic(p, 0, |names|) == p;
      if taken {
        var q := if p + 1 >= |names| then 0 else p + 1;
        assert Probe(names, p, i, key) == Probe(names, q, i - 1, key);
        ProbeFails(names, q, i - 1, key);
        forall d | 0 <= d < i - 1 ensures Cyclic(q, d, |names|) == Cyclic(p, d + 1, |names|) {}
        forall d | 1 <= d < i ensures Cyclic(p, d, |names|) == Cyclic(q, d - 1, |names|) {}
      }
    }
  }

  /** Otherwise all slots from the first up to the one found, cyclically, are taken by other keys. */
  lemma {:induction false} ProbePath<K>(names: seq<Option<K>>, p: nat, i: nat, key: K) returns (d: nat)
    requires 0 < |names| && p < |names| && i <= |names| && Probe(names, p, i, key) >= 0
    ensures d < i && Cyclic(p, d, |names|) == Probe(names, p, i, key)
    ensures forall e :: 0 <= e < d ==> names[Cyclic(p, e, |names|)].Some? && names[Cyclic(p, e, |names|)] != Some(key)
    decreases i
  {
    if names[p].Some? && names[p] != Some(key) {
      var q := if p + 1 >= |names| then 0 else p + 1;
      assert Probe(names, p, i, key) == Probe(names, q, i - 1, key);
      var c := ProbePath(names, q, i - 1, key);
      d := c + 1;
      assert Cyclic(p, 0, |names|) == p;
      forall e | 1 <= e <= d ensures Cyclic(p, e, |names|) == Cyclic(q, e - 1, |names|) {}
    } else {
      d := 0;
    }
  }

  function Cyclic(p: nat, d: nat, n: nat): (q: nat)
    requires p < n && d < n
    ensures q == (p + d) % n < n
  {
    if p + d < n then p + d else p + d - n
  }

  /** What linear probing promises: from `start` on, cyclically, `count` slots may be looked at; the
      answer is the first that is free or holds the key, and -1 exactly if there is none. */
  ghost predicate Probed<K>(names: seq<Option<K>>, start: nat, count: nat, key: K, slot: int)
    requires start < |names| && count <= |names|
  {
    if slot == -1 then forall d :: 0 <= d < count ==> Taken(names[Cyclic(start, d, |names|)], key)
    else
      exists d :: 0 <= d < count && slot == Cyclic(start, d, |names|) && !Taken(names[slot], key) &&
                  forall e :: 0 <= e < d ==> Taken(names[Cyclic(start, e, |names|)], key)
  }

  predicate Taken<K(==)>(name: Option<K>, key: K) {
    name.Some? && name.value != key
  }

  lemma SlotIsProbed<K>(names: seq<Option<K>>, hash: K -> nat, key: K)
    requires 0 < |names|
    ensures Probed(names, hash(key) % |names|, |names| / 5, key, SlotOf(names, hash, key))
  {
    var start := hash(key) % |names|;
    ProbeFails(names, start, |names| / 5, key);
    if SlotOf(names, hash, key) == -1 {
      forall d | 0 <= d < |names| / 5 ensures Taken(names[Cyclic(start, d, |names|)], key) {}
    } else {
      var d := ProbePath(names, start, |names| / 5, key);
    }
  }

  /** The names in use. */
  ghost function Used<K(!new)>(names: seq<Option<K>>): set<K> {
    set q | 0 <= q < |names| && names[q].Some? :: names[q].value
  }

  /** Slots in a row that are taken hold as many different names. */
  lemma {:induction false} ManyTaken<K(!new)>(names: seq<Option<K>>, hash: K -> nat, start: nat, count: nat, key: K) returns (others: set<K>)
    requires Reachable(names, hash) && start < |names| && count <= |names|
    requires forall d :: 0 <= d < count ==> Taken(names[Cyclic(start, d, |names|)], key)
    ensures |others| == count && others <= Used(names) - {key}
    ensures forall k :: k in others ==> exists d :: 0 <= d < count && names[Cyclic(start, d, |names|)] == Some(k)
  {
    if count == 0 {
      others := {};
    } else {
      var q := Cyclic(start, count - 1, |names|);
      var fewer := ManyTaken(names, hash, start, count - 1, key);
      assert Taken(names[q], key);
      var k := names[q].value;
      assert k !in fewer;
      others := fewer + {k};
    }
  }

  /** Probing for a key cannot fail before a fifth of the slots hold other names. */
  lemma FewNamesFit<K(!new)>(names: seq<Option<K>>, hash: K -> nat, key: K)
    requires Reachable(names, hash) && SlotOf(names, hash, key) == -1
    ensures |Used(names) - {key}| >= |names| / 5
  {
    hide Reachable, SlotOf;
    NamesNotEmpty(names, hash);
    SlotIsProbed(names, hash, key);
    var others := ManyTaken(names, hash, hash(key) % |names|, |names| / 5, key);
    Smaller(others, Used(names) - {key});
  }

  lemma NamesNotEmpty<K(!new)>(names: seq<Option<K>>, hash: K -> nat)
    requires Reachable(names, hash)
    ensures |names| > 0
  {
  }

  lemma {:induction false} Smaller<K>(a: set<K>, b: set<K>)
    requires a <= b
    ensures |a| <= |b|
  {
    assert b == a + (b - a);
  }

  lemma FillSlot<K(!new)>(names: seq<Option<K>>, hash: K -> nat, key: K)
    requires Reachable(names, hash) && SlotOf(names, hash, key) >= 0
    ensures var slot := SlotOf(names, hash, key);
            var later := names[slot := Some(key)];
            Extends(names, later) && Reachable(later, hash) && SlotOf(later, hash, key) == slot
  {
    var slot := SlotOf(names, hash, key);
    var later := names[slot := Some(key)];
    ProbeStable(names, later, hash(key) % |names|, |names| / 5, key);
    forall q | 0 <= q < |later| && later[q].Some? && q != slot ensures SlotOf(later, hash, later[q].value) == q {
      var k := names[q].value;
      assert SlotOf(names, hash, k) == q;
      ProbeStable(names, later, hash(k) % |names|, |names| / 5, k);
    }
  }

  lemma SlotStable<K(!new)>(names: seq<Option<K>>, later: seq<Option<K>>, hash: K -> nat, key: K)
    requires 0 < |names| && Extends(names, later)
    requires var slot := SlotOf(names, hash, key); slot >= 0 && names[slot] == Some(key)
    ensures SlotOf(later, hash, key) == SlotOf(names, hash, key)
  {
    ProbeStable(names, later, hash(key) % |names|, |names| / 5, key);
  }

  lemma ExtendsTransitive<K>(a: seq<Option<K>>, b: seq<Option<K>>, c: seq<Option<K>>)
    requires Extends(a, b) && Extends(b, c)
    ensures Extends(a, c)
  {
  }

  /** The attributes that are open: what the filled slots hold. */
  ghost predicate Holds<K(!new), A(!new)>(space: seq<AttBucket<K, A>>, hash: K -> nat, open: map<K, (A, int)>) {
    0 < |space| &&
    (forall q :: 0 <= q < |space| && space[q].attribute.Some? ==>
       space[q].name.Some? && space[q].name.value in open &&
       open[space[q].name.value] == (space[q].attribute.value, space[q].kind)) &&
    forall k :: k in open ==>
      var q := SlotOf(Names(space), hash, k);
      q >= 0 && space[q].name == Some(k) && space[q].attribute.Some?
  }

  function Names<K, A>(space: seq<AttBucket<K, A>>): (names: seq<Option<K>>)
    ensures |names| == |space| && forall q :: 0 <= q < |space| ==> names[q] == space[q].name
  {
    seq(|space|, q requires 0 <= q < |space| => space[q].name)
  }

  datatype Op<K, A> =
    | Lookup(name: K, kind: int, fetched: Option<A>)
    | Drop(name: K, deleted: bool)

  /** The open attributes after an operation. */
  function Apply<K, A>(open: map<K, (A, int)>, op: Op<K, A>): map<K, (A, int)> {
    match op
    case Lookup(name, kind, fetched) => if name !in open && fetched.Some? then open[name := (fetched.value, kind)] else open
    case Drop(name, deleted) => if deleted then open - {name} else open
  }

  /** What cqi_lookup_attribute answers. */
  function AnswerTo<K, A>(open: map<K, (A, int)>, name: K, kind: int, fetched: Option<A>): Answer<A> {
    if name !in open then (if fetched.Some? then Found(fetched.value) else NoSuchAttribute)
    else if open[name].1 != kind then WrongType
    else Found(open[name].0)
  }

  /** The contents change in one slot, the one of `key`. */
  lemma ChangeSlot<K(!new), A(!new)>(space: seq<AttBucket<K, A>>, hash: K -> nat, open: map<K, (A, int)>, key: K,
                                     attribute: Option<A>, kind: int)
    requires Holds(space, hash, open) && Reachable(Names(space), hash)
    requires var q := SlotOf(Names(space), hash, key); q >= 0 && space[q].name == Some(key)
    ensures var q := SlotOf(Names(space), hash, key);
            var later := space[q := AttBucket(Some(key), attribute, kind)];
            Names(later) == Names(space) &&
            Holds(later, hash, if attribute.Some? then open[key := (attribute.value, kind)] else open - {key})
  {
    var names := Names(space);
    var q := SlotOf(names, hash, key);
    var later := space[q := AttBucket(Some(key), attribute, kind)];
    assert Names(later) == names;
    forall r | 0 <= r < |space| && r != q && space[r].name.Some? ensures space[r].name.value != key {
      assert names[r] == space[r].name;
      assert SlotOf(names, hash, names[r].value) == r;
    }
  }

  lemma NameSlot<K(!new), A(!new)>(space: seq<AttBucket<K, A>>, hash: K -> nat, open: map<K, (A, int)>, key: K)
    requires Holds(space, hash, open) && Reachable(Names(space), hash) && SlotOf(Names(space), hash, key) >= 0
    ensures var q := SlotOf(Names(space), hash, key);
            var later := if space[q].name == None then space[q := AttBucket(Some(key), None, ATT_NONE)] else space;
            Names(later) == Names(space)[q := Some(key)] && Reachable(Names(later), hash) &&
            Extends(Names(space), Names(later)) && Holds(later, hash, open) &&
            SlotOf(Names(later), hash, key) == q && later[q].name == Some(key) &&
            (later[q].attribute.Some? <==> key in open) &&
            (key in open ==> open[key] == (later[q].attribute.value, later[q].kind))
  {
    var names := Names(space);
    var q := SlotOf(names, hash, key);
    var later := if space[q].name == None then space[q := AttBucket(Some(key), None, ATT_NONE)] else space;
    assert Names(later) == names[q := Some(key)];
    FillSlot(names, hash, key);
    forall k | k in open
      ensures var r := SlotOf(Names(later), hash, k); r >= 0 && later[r].name == Some(k) && later[r].attribute.Some?
    {
      SlotStable(names, Names(later), hash, k);
    }
  }

  class AttributeHash<K(!new, ==), A(!new)> {
    const hash: K -> nat
    const space: array<AttBucket<K, A>>
    ghost var open: map<K, (A, int)>

    ghost predicate Valid()
      reads this, space
    {
      Holds(space[..], hash, open) && Reachable(Names(space[..]), hash)
    }

    constructor (hash: K -> nat, size: nat)
      requires size > 0
      ensures Valid() && open == map[] && space.Length == size && fresh(space)
      ensures forall q :: 0 <= q < size ==> space[q].name == None
    {
      this.hash := hash;
      space := new AttBucket<K, A>[size](_ => AttBucket(None, None, ATT_NONE));
      open := map[];
    }

    /** att_hash_lookup: the bucket of a name, made if there is none; -1 for "Too many collisions". */
    method BucketFor(name: K) returns (slot: int)
      requires Valid()
      modifies space
      ensures Valid() && Extends(Names(old(space[..])), Names(space[..]))
      ensures slot == SlotOf(Names(old(space[..])), hash, name) && -1 <= slot < space.Length && space.Length > 0
      ensures Probed(Names(old(space[..])), hash(name) % space.Length, space.Length / 5, name, slot)
      ensures slot == -1 ==> space[..] == old(space[..])
      ensures slot >= 0 ==> Names(space[..]) == Names(old(space[..]))[slot := Some(name)] &&
                            SlotOf(Names(space[..]), hash, name) == slot
      ensures slot >= 0 ==> (name in open <==> space[slot].attribute.Some?) &&
                            (name in open ==> open[name] == (space[slot].attribute.value, space[slot].kind))
    {
      hide Holds, Reachable, Probe, Probed;
      ghost var before := space[..];
      NotEmpty(before, hash, open);
      SlotIsProbed(Names(before), hash, name);
      var end := space.Length;
      var p, i := hash(name) % end, end / 5;
      while i > 0
        invariant 0 <= p <= end && 0 <= i && space[..] == before
        invariant Probe(Names(before), p, i, name) == SlotOf(Names(before), hash, name)
      {
        ProbeStep(Names(before), p, i, name);
        if p >= end { p := 0; }
        if space[p].name == None {
          NameSlot(before, hash, open, name);
          space[p] := AttBucket(Some(name), None, ATT_NONE);
          assert space[..] == before[p := AttBucket(Some(name), None, ATT_NONE)];
          break;
        } else if space[p].name == Some(name) {
          NameSlot(before, hash, open, name);
          break;
        }
        p, i := p + 1, i - 1;
      }
      if i == 0 {
        ProbeStep(Names(before), p, i, name);
        SameNames(Names(before));
        return -1;
      }
      slot := p;
    }

    /** cqi_lookup_attribute; `fetched` is the attribute that can be opened under this name and type.
        `slot` is the bucket used, -1 for an internal error. */
    method LookupAttribute(name: K, kind: int, fetched: Option<A>) returns (answer: Answer<A>, slot: int)
      requires Valid()
      modifies this, space
      ensures Valid() && Extends(Names(old(space[..])), Names(space[..]))
      ensures slot == SlotOf(Names(old(space[..])), hash, name) && -1 <= slot < space.Length && space.Length > 0
      ensures slot >= 0 && name in old(open) ==>
                open == old(open) && answer == if old(open)[name].1 == kind then Found(old(open)[name].0) else WrongType
      ensures slot >= 0 && name !in old(open) ==>
                if fetched.Some? then open == old(open)[name := (fetched.value, kind)] && answer == Found(fetched.value)
                else open == old(open) && answer == NoSuchAttribute
      ensures slot == -1 ==> answer == NoSuchAttribute
      ensures slot >= 0 ==> answer == AnswerTo(old(open), name, kind, fetched) &&
                            open == Apply(old(open), Lookup(name, kind, fetched)) && Names(space[..]) == Names(old(space[..]))[slot := Some(name)]
      ensures slot == -1 ==> open == old(open) && space[..] == old(space[..])
    {
      hide Holds, Reachable, Probe, SlotOf;
      slot := BucketFor(name);
      if slot < 0 { return NoSuchAttribute, slot; }
      var bucket := space[slot];
      if bucket.attribute == None {
        if fetched == None { return NoSuchAttribute, slot; }
        Store(name, slot, fetched, kind);
        return Found(fetched.value), slot;
      } else if bucket.kind != kind {
        return WrongType, slot;
      }
      return Found(bucket.attribute.value), slot;
    }

    /** cqi_drop_attribute; `deleted` is the result of cl_delete_attribute. */
    method DropAttribute(name: K, deleted: bool) returns (dropped: bool, slot: int)
      requires Valid()
      modifies this, space
      ensures Valid() && Extends(Names(old(space[..])), Names(space[..]))
      ensures slot == SlotOf(Names(old(space[..])), hash, name) && -1 <= slot < space.Length && space.Length > 0
      ensures slot >= 0 ==> open == if deleted then old(open) - {name} else old(open)
      ensures slot == -1 ==> !dropped
      ensures slot >= 0 ==> dropped == (name in old(open) && deleted) && open == Apply(old(open), Drop(name, deleted)) &&
                            Names(space[..]) == Names(old(space[..]))[slot := Some(name)]
      ensures slot == -1 ==> open == old(open) && space[..] == old(space[..])
    {
      hide Holds, Reachable, Probe, SlotOf;
      slot := BucketFor(name);
      if slot < 0 { return false, slot; }
      if space[slot].attribute.Some? && deleted {
        Store(name, slot, None, ATT_NONE);
        return true, slot;
      }
      assert name !in open ==> open - {name} == open;
      dropped := false;
    }

    /** Sets the attribute of a bucket. */
    method Store(name: K, slot: int, attribute: Option<A>, kind: int)
      requires Valid() && slot >= 0 && slot == SlotOf(Names(space[..]), hash, name) && slot < space.Length
      requires space[slot].name == Some(name)
      modifies this, space
      ensures Valid() && Names(space[..]) == Names(old(space[..]))
      ensures open == if attribute.Some? then old(open)[name := (attribute.value, kind)] else old(open) - {name}
    {
      hide Holds, Reachable, Probe, SlotOf;
      ghost var before := space[..];
      ChangeSlot(before, hash, open, name, attribute, kind);
      space[slot] := space[slot].(attribute := attribute, kind := kind);
      assert space[..] == before[slot := AttBucket(Some(name), attribute, kind)];
      open := if attribute.Some? then open[name := (attribute.value, kind)] else open - {name};
    }

    lemma NamesReachable()
      requires Valid()
      ensures Reachable(Names(space[..]), hash)
    {
    }

    /** Over any run of lookups and drops, a name that has a bucket keeps it, and no other name gets it;
        while at most a fifth as many names as slots are used, every name has one. */
    method Perform(ops: seq<Op<K, A>>) returns (slots: seq<int>)
      requires Valid()
      modifies this, space
      ensures Valid() && Extends(Names(old(space[..])), Names(space[..])) && |slots| == |ops|
      ensures forall i, j :: 0 <= i < j < |ops| && slots[i] >= 0 ==> (slots[i] == slots[j] <==> ops[i].name == ops[j].name)
      ensures |Used(Names(old(space[..]))) + NamesOf(ops)| <= space.Length / 5 ==> forall i :: 0 <= i < |ops| ==> slots[i] >= 0
      ensures (forall i :: 0 <= i < |ops| ==> slots[i] >= 0) ==> open == ApplyAll(old(open), ops)
    {
      hide Holds, Reachable, Probe, SlotOf, Extends, ApplyAll, Apply, Valid, Used, NamesOf;
      slots := [];
      ghost var before := Names(space[..]);
      ghost var open0 := open;
      SameNames(before);
      ApplyNone(open0, ops);
      for i := 0 to |ops|
        invariant Valid() && |slots| == i && Extends(before, Names(space[..]))
        invariant forall j :: 0 <= j < i ==> Kept(Names(space[..]), hash, ops[j].name, slots[j])
        invariant Used(Names(space[..])) <= Used(before) + NamesOf(ops)
        invariant |Used(before) + NamesOf(ops)| <= space.Length / 5 ==> forall j :: 0 <= j < i ==> slots[j] >= 0
        invariant forall j, k :: 0 <= j < k < i && slots[j] >= 0 ==> (slots[j] == slots[k] <==> ops[j].name == ops[k].name)
        invariant (forall j :: 0 <= j < i ==> slots[j] >= 0) ==> open == ApplyAll(open0, ops[..i])
      {
        ghost var names := Names(space[..]);
        NamesReachable();
        var slot;
        match ops[i] {
          case Lookup(name, kind, fetched) =>
            var answer;
            answer, slot := LookupAttribute(name, kind, fetched);
          case Drop(name, deleted) =>
            var dropped;
            dropped, slot := DropAttribute(name, deleted);
        }
        forall j | 0 <= j < i
          ensures Kept(Names(space[..]), hash, ops[j].name, slots[j])
          ensures slots[j] >= 0 ==> (slots[j] == slot <==> ops[j].name == ops[i].name)
        {
          KeptOn(names, Names(space[..]), hash, ops[j].name, slots[j], ops[i].name, slot);
        }
        KeptNow(names, Names(space[..]), hash, ops[i].name, slot);
        RoomLeft(names, hash, before, ops, i, slot);
        ExtendsTransitive(before, names, Names(space[..]));
        ApplyOne(open0, ops, i);
        slots := slots + [slot];
      }
      assert ops[..|ops|] == ops;
    }
  }

  /** The names that a run of operations asks for. */
  ghost function NamesOf<K(!new), A>(ops: seq<Op<K, A>>): set<K> {
    set i | 0 <= i < |ops| :: ops[i].name
  }

  lemma RoomLeft<K(!new), A>(names: seq<Option<K>>, hash: K -> nat, before: seq<Option<K>>, ops: seq<Op<K, A>>, i: nat, slot: int)
    requires Reachable(names, hash) && i < |ops| && slot == SlotOf(names, hash, ops[i].name)
    requires Used(names) <= Used(before) + NamesOf(ops)
    ensures |Used(before) + NamesOf(ops)| <= |names| / 5 ==> slot >= 0
    ensures 0 <= slot < |names| ==> Used(names[slot := Some(ops[i].name)]) <= Used(before) + NamesOf(ops)
  {
    var all := Used(before) + NamesOf(ops);
    assert ops[i].name in NamesOf(ops);
    if slot == -1 {
      FewNamesFit(names, hash, ops[i].name);
      Smaller(Used(names) - {ops[i].name}, all - {ops[i].name});
    }
  }

  /** The open attributes after a run of operations. */
  function ApplyAll<K, A>(open: map<K, (A, int)>, ops: seq<Op<K, A>>): map<K, (A, int)>
    decreases |ops|
  {
    if ops == [] then open else Apply(ApplyAll(open, ops[..|ops| - 1]), ops[|ops| - 1])
  }

  lemma ApplyNone<K, A>(open: map<K, (A, int)>, ops: seq<Op<K, A>>)
    ensures ApplyAll(open, ops[..0]) == open
  {
  }

  lemma ApplyOne<K, A>(open: map<K, (A, int)>, ops: seq<Op<K, A>>, i: nat)
    requires i < |ops|
    ensures ApplyAll(open, ops[..i + 1]) == Apply(ApplyAll(open, ops[..i]), ops[i])
  {
    assert ops[..i + 1][..i] == ops[..i];
  }

  lemma NotEmpty<K(!new), A(!new)>(space: seq<AttBucket<K, A>>, hash: K -> nat, open: map<K, (A, int)>)
    requires Holds(space, hash, open)
    ensures |space| > 0
  {
  }

  lemma SameNames<K>(names: seq<Option<K>>)
    ensures Extends(names, names)
  {
  }

  lemma ProbeStep<K>(names: seq<Option<K>>, p: nat, i: nat, key: K)
    requires 0 < |names|
    ensures i == 0 ==> Probe(names, p, i, key) == -1
    ensures i > 0 ==> var q := if p >= |names| then 0 else p;
                      Probe(names, p, i, key) ==
                      (if names[q] == None || names[q] == Some(key) then q else Probe(names, q + 1, i - 1, key))
  {
  }

  /** A slot, if it is one, holds the name and is found for it. */
  ghost predicate Kept<K>(names: seq<Option<K>>, hash: K -> nat, name: K, slot: int) {
    slot >= 0 ==> slot < |names| && names[slot] == Some(name) && SlotOf(names, hash, name) == slot
  }

  lemma KeptOn<K(!new)>(names: seq<Option<K>>, later: seq<Option<K>>, hash: K -> nat, name: K, slot: int, next: K, nextSlot: int)
    requires 0 < |names| && Extends(names, later) && Kept(names, hash, name, slot) && nextSlot == SlotOf(names, hash, next)
    requires nextSlot >= 0 ==> later[nextSlot] == Some(next)
    ensures Kept(later, hash, name, slot)
    ensures slot >= 0 ==> (slot == nextSlot <==> name == next)
  {
    if slot >= 0 { SlotStable(names, later, hash, name); }
  }

  lemma KeptNow<K(!new)>(names: seq<Option<K>>, later: seq<Option<K>>, hash: K -> nat, name: K, slot: int)
    requires 0 < |names| && Extends(names, later) && slot == SlotOf(names, hash, name)
    requires slot >= 0 ==> later[slot] == Some(name)
    ensures Kept(later, hash, name, slot)
  {
    if slot >= 0 { ProbeStable(names, later, hash(name) % |names|, |names| / 5, name); }
  }
}
