/** binsert_g (cl/binsert.c): insertion into a sorted table that grows in blocks. */
module Binsert {
  import opened Sorting

  const REALLOC_THRESHOLD: nat := 16

  ghost predicate StrictlySorted<T>(compar: Comparison<T>, s: seq<T>) {
    forall i, j :: 0 <= i < j < |s| ==> compar(s[i], s[j]) < 0
  }

  function SetOf<T(==)>(s: seq<T>): set<T> {
    set x | x in s
  }

  lemma InsertAt<T(!new)>(compar: Comparison<T>, s: seq<T>, at: nat, key: T)
    requires TotalOrder(compar) && StrictlySorted(compar, s) && at <= |s|
    requires (forall k :: 0 <= k < at ==> compar(s[k], key) < 0) && forall k :: at <= k < |s| ==> compar(s[k], key) > 0
    ensures key !in s
    ensures StrictlySorted(compar, s[..at] + [key] + s[at..]) && SetOf(s[..at] + [key] + s[at..]) == SetOf(s) + {key}
  {
    hide TotalOrder;
    var r := s[..at] + [key] + s[at..];
    assert s == s[..at] + s[at..];
    Laws(compar, key, key, key);
    forall i, j | 0 <= i < j < |r| ensures compar(r[i], r[j]) < 0 {
      Between(compar, s, at, key, i, j);
    }
  }

  lemma Between<T(!new)>(compar: Comparison<T>, s: seq<T>, at: nat, key: T, i: nat, j: nat)
    requires TotalOrder(compar) && StrictlySorted(compar, s) && at <= |s| && i < j <= |s|
    requires (forall k :: 0 <= k < at ==> compar(s[k], key) < 0) && forall k :: at <= k < |s| ==> compar(s[k], key) > 0
    ensures var r := s[..at] + [key] + s[at..]; compar(r[i], r[j]) < 0
  {
    hide TotalOrder;
    var r := s[..at] + [key] + s[at..];
    assert r[i] == if i < at then s[i] else if i == at then key else s[i - 1];
    assert r[j] == if j < at then s[j] else if j == at then key else s[j - 1];
    Laws(compar, r[i], r[j], r[j]);
    Laws(compar, r[j], r[i], r[i]);
    Laws(compar, r[i], key, r[j]);
    Laws(compar, r[j], key, r[j]);
  }

  /** A strictly sorted table is determined by its set of elements. */
  lemma {:induction false} SortedUnique<T(!new)>(compar: Comparison<T>, a: seq<T>, b: seq<T>)
    requires TotalOrder(compar) && StrictlySorted(compar, a) && StrictlySorted(compar, b) && SetOf(a) == SetOf(b)
    ensures a == b
    decreases |a|
  {
    if a == [] {
      assert forall i :: 0 <= i < |b| ==> b[i] in SetOf(b);
    } else {
      assert a[0] in SetOf(b);
      Least(compar, b, a[0]);
      assert b[0] in SetOf(a);
      Least(compar, a, b[0]);
      assert a == [a[0]] + a[1..] && b == [b[0]] + b[1..];
      Rest(compar, a);
      Rest(compar, b);
      SortedUnique(compar, a[1..], b[1..]);
    }
  }

  lemma Least<T(!new)>(compar: Comparison<T>, s: seq<T>, x: T)
    requires TotalOrder(compar) && StrictlySorted(compar, s) && x in s
    ensures x == s[0] || compar(s[0], x) < 0
  {
  }

  lemma Rest<T(!new)>(compar: Comparison<T>, s: seq<T>)
    requires TotalOrder(compar) && StrictlySorted(compar, s) && s != []
    ensures StrictlySorted(compar, s[1..]) && SetOf(s[1..]) == SetOf(s) - {s[0]}
  {
    forall x ensures x in s[1..] <==> x in s && x != s[0] {
      if x in s && x != s[0] {
        var i :| 0 <= i < |s| && s[i] == x;
        assert s[1..][i - 1] == x;
      }
      if x in s[1..] {
        var i :| 0 <= i < |s[1..]| && s[1..][i] == x;
        assert s[i + 1] == x && compar(s[0], s[i + 1]) < 0;
      }
    }
  }

  /** A table: the memory that holds it, if there is one already, and the number of elements. */
  class Table<T(0, !new)> {
    var base: array?<T>
    var nel: nat

    constructor ()
      ensures base == null && nel == 0
    {
      base, nel := null, 0;
    }

    /** The memory is a multiple of the block size, with less than a block to spare. */
    ghost predicate Valid()
      reads this
    {
      if base == null then nel == 0
      else nel >= 1 && base.Length % REALLOC_THRESHOLD == 0 && nel <= base.Length < nel + REALLOC_THRESHOLD
    }

    ghost function Contents(): seq<T>
      requires Valid()
      reads this, base
    {
      if base == null then [] else base[..nel]
    }

    /** binsert_g: the place of the element. */
    method Insert(key: T, compar: Comparison<T>) returns (at: nat)
      requires Valid() && TotalOrder(compar) && StrictlySorted(compar, Contents())
      modifies this, base
      ensures Valid() && base != null && (base == old(base) || fresh(base))
      ensures StrictlySorted(compar, Contents()) && at < nel && Contents()[at] == key
      ensures SetOf(Contents()) == SetOf(old(Contents())) + {key}
      ensures nel == old(nel) + if key in old(Contents()) then 0 else 1
    {
      hide SetOf, TotalOrder, StrictlySorted;
      if base == null {
        Single(compar, key);
        base := new T[REALLOC_THRESHOLD];
        base[0] := key;
        nel := 1;
        assert base[..1] == [key];
        return 0;
      }
      ghost var s := base[..nel];
      var found;
      found, at := Search(key, compar);
      if found {
        Present(s, key, at);
        return;
      }
      InsertAt(compar, s, at, key);
      if nel % REALLOC_THRESHOLD == 0 { Grow(); }
      Shift(at, key);
    }

    /** The element moves of binsert_g: the key goes to `at`, what was there and behind it one up. */
    method Shift(at: nat, key: T)
      requires base != null && at <= nel < base.Length
      modifies this`nel, base
      ensures base == old(base) && nel == old(nel) + 1
      ensures base[..nel] == old(base[..nel])[..at] + [key] + old(base[..nel])[at..]
    {
      ghost var s := base[..nel];
      if at < nel {
        forall k | at <= k < nel { base[k + 1] := base[k]; }
      }
      base[at] := key;
      nel := nel + 1;
      Shifted(base[..nel], s, at, key);
    }

    /** The realloc of binsert_g: one more block. */
    method Grow()
      requires Valid() && base != null && nel % REALLOC_THRESHOLD == 0
      modifies this`base
      ensures base != null && fresh(base) && base.Length == nel + REALLOC_THRESHOLD && base[..nel] == old(base[..nel])
    {
      var bigger := new T[nel + REALLOC_THRESHOLD];
      forall k | 0 <= k < nel { bigger[k] := base[k]; }
      base := bigger;
    }

    /** The binary search of binsert_g: where the key is, or where it goes. */
    method Search(key: T, compar: Comparison<T>) returns (found: bool, at: nat)
      requires base != null && 1 <= nel <= base.Length
      requires TotalOrder(compar) && StrictlySorted(compar, base[..nel])
      ensures found ==> at < nel && base[at] == key
      ensures !found ==> at <= nel && (forall k :: 0 <= k < at ==> compar(base[k], key) < 0)
      ensures !found ==> forall k :: at <= k < nel ==> compar(base[k], key) > 0
    {
      hide TotalOrder, StrictlySorted;
      var low, high, mid, comp := 0, nel - 1, 0, 0;
      found := false;
      while low <= high && !found
        invariant 0 <= low <= high + 1 && high < nel && 0 <= mid < nel
        invariant (forall k :: 0 <= k < low ==> compar(base[k], key) < 0)
        invariant forall k :: high < k < nel ==> compar(base[k], key) > 0
        invariant found ==> base[mid] == key
        invariant !found && low > high ==> comp != 0
        invariant !found && comp < 0 ==> mid + 1 == low
        invariant !found && comp > 0 ==> mid == high + 1
        decreases if found then 0 else 1, high - low
      {
        mid := (low + high) / 2;
        comp := compar(base[mid], key);
        Side(compar, base[..nel], mid, key);
        assert base[..nel][mid] == base[mid];
        if comp < 0 {
          low := mid + 1;
        } else if comp > 0 {
          high := mid - 1;
        } else {
          found := true;
        }
      }
      if found { return true, mid; }
      at := if comp < 0 then mid + 1 else mid;
    }
  }

  lemma Shifted<T>(r: seq<T>, s: seq<T>, at: nat, key: T)
    requires |r| == |s| + 1 && at <= |s| && r[at] == key && (forall k :: 0 <= k < at ==> r[k] == s[k])
    requires forall k :: at <= k < |s| ==> r[k + 1] == s[k]
    ensures r == s[..at] + [key] + s[at..]
  {
    forall k | at < k < |r| ensures r[k] == s[k - 1] { assert r[k - 1 + 1] == s[k - 1]; }
  }

  lemma Single<T(!new)>(compar: Comparison<T>, key: T)
    ensures StrictlySorted(compar, [key]) && SetOf([key]) == SetOf([]) + {key}
  {
  }

  lemma Present<T>(s: seq<T>, key: T, at: nat)
    requires at < |s| && s[at] == key
    ensures key in s && SetOf(s) == SetOf(s) + {key}
  {
  }

  lemma Side<T(!new)>(compar: Comparison<T>, s: seq<T>, mid: nat, key: T)
    requires TotalOrder(compar) && StrictlySorted(compar, s) && mid < |s|
    ensures compar(s[mid], key) < 0 ==> forall k :: 0 <= k <= mid ==> compar(s[k], key) < 0
    ensures compar(s[mid], key) > 0 ==> forall k :: mid <= k < |s| ==> compar(s[k], key) > 0
    ensures compar(s[mid], key) == 0 ==> s[mid] == key
  {
  }

  /** Any run of insertions leaves the strictly sorted table of the keys inserted. */
  method InsertAll<T(0, !new)>(keys: seq<T>, compar: Comparison<T>) returns (t: Table<T>)
    requires TotalOrder(compar)
    ensures t.Valid() && StrictlySorted(compar, t.Contents()) && SetOf(t.Contents()) == SetOf(keys)
  {
    hide SetOf, TotalOrder, StrictlySorted;
    t := new Table<T>();
    EmptySorted(compar);
    for i := 0 to |keys|
      invariant fresh(t) && (t.base == null || fresh(t.base)) && t.Valid()
      invariant StrictlySorted(compar, t.Contents()) && SetOf(t.Contents()) == SetOf(keys[..i])
    {
      var at := t.Insert(keys[i], compar);
      OneMore(keys, i);
    }
    assert keys[..|keys|] == keys;
  }

  lemma EmptySorted<T(!new)>(compar: Comparison<T>)
    ensures StrictlySorted(compar, [])
  {
  }

  lemma OneMore<T>(keys: seq<T>, i: nat)
    requires i < |keys|
    ensures SetOf(keys[..i + 1]) == SetOf(keys[..i]) + {keys[i]}
  {
    assert keys[..i + 1] == keys[..i] + [keys[i]];
  }
}
