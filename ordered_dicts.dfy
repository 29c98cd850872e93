/**
 * The reference collections both tools pass around are Python dictionaries:
 * maps that remember insertion order. Assigning an existing key replaces its
 * value in place; assigning a new key appends it. `dict.update(other)` assigns
 * the keys of `other` one by one, in `other`'s order.
 */
module OrderedDicts {

  /** A citation identifier. */
  type Key = string
  /** A field name such as "title", "year" or "url". */
  type Field = string
  /** One reference record: field name to field value. */
  type Record = map<Field, string>

  /** Keys in iteration order, and the value of each key. */
  datatype OrderedMap = OrderedMap(keys: seq<Key>, entries: map<Key, Record>)

  predicate Distinct(s: seq<Key>) {
    forall i, j :: 0 <= i < j < |s| ==> s[i] != s[j]
  }

  /** Every key occurs once in the order, and the order lists exactly the keys of the map. */
  ghost predicate WellFormed(m: OrderedMap) {
    && Distinct(m.keys)
    && (forall k :: k in m.keys <==> k in m.entries)
  }

  /** A dictionary as Python has it. */
  type Dict = m: OrderedMap | WellFormed(m) witness OrderedMap([], map[])

  const Empty: Dict := OrderedMap([], map[])

  /** `d[k] = v`: an existing key keeps its position, a new key is appended. */
  function Assigned(d: Dict, k: Key, v: Record): (r: Dict)
    ensures r.entries == d.entries[k := v]
    ensures k in d.entries ==> r.keys == d.keys
    ensures k !in d.entries ==> r.keys == d.keys + [k]
  {
    if k in d.entries then
      OrderedMap(d.keys, d.entries[k := v])
    else
      assert forall i :: 0 <= i < |d.keys| ==> d.keys[i] != k by {
        forall i | 0 <= i < |d.keys| ensures d.keys[i] != k {
          assert d.keys[i] in d.keys;
        }
      }
      OrderedMap(d.keys + [k], d.entries[k := v])
  }

  /** `d` after `d[k] = o[k]` for the first `n` keys `k` of `o`, in `o`'s order. */
  function UpdatedPrefix(d: Dict, o: Dict, n: nat): Dict
    requires n <= |o.keys|
  {
    if n == 0 then d
    else Assigned(UpdatedPrefix(d, o, n - 1), o.keys[n - 1], o.entries[o.keys[n - 1]])
  }

  /** `d.update(o)`. */
  function Updated(d: Dict, o: Dict): Dict {
    UpdatedPrefix(d, o, |o.keys|)
  }

  /** The keys of `s` that are not keys of `present`, in the order of `s`. */
  function NewKeys(s: seq<Key>, present: map<Key, Record>): seq<Key> {
    if s == [] then []
    else NewKeys(s[..|s| - 1], present) + (if s[|s| - 1] in present then [] else [s[|s| - 1]])
  }

  /** The entries of `o` whose keys are among the first `n` keys of `o`. */
  function PrefixEntries(o: Dict, n: nat): map<Key, Record>
    requires n <= |o.keys|
  {
    if n == 0 then map[] else PrefixEntries(o, n - 1)[o.keys[n - 1] := o.entries[o.keys[n - 1]]]
  }

  /**
   * A closed-form description of `d.update(o)`: the keys of `d` keep their
   * positions, the keys only `o` has follow in `o`'s order, and on a shared
   * key the value of `o` replaces the value of `d`.
   */
  function Merged(d: Dict, o: Dict): OrderedMap {
    OrderedMap(d.keys + NewKeys(o.keys, d.entries), d.entries + o.entries)
  }

  lemma {:induction false} NewKeysMembers(s: seq<Key>, present: map<Key, Record>, k: Key)
    ensures k in NewKeys(s, present) <==> k in s && k !in present
  {
    if s != [] {
      var init := s[..|s| - 1];
      NewKeysMembers(init, present, k);
      assert s == init + [s[|s| - 1]];
    }
  }

  lemma {:induction false} NewKeysOfAbsent(s: seq<Key>)
    ensures NewKeys(s, map[]) == s
  {
    if s != [] {
      NewKeysOfAbsent(s[..|s| - 1]);
      assert s == s[..|s| - 1] + [s[|s| - 1]];
    }
  }

  lemma {:induction false} NewKeysOfPresent(s: seq<Key>, present: map<Key, Record>)
    requires forall k :: k in s ==> k in present
    ensures NewKeys(s, present) == []
  {
    if s != [] {
      NewKeysOfPresent(s[..|s| - 1], present);
    }
  }

  lemma {:induction false} PrefixEntriesKeys(o: Dict, n: nat, k: Key)
    requires n <= |o.keys|
    ensures k in PrefixEntries(o, n) <==> k in o.keys[..n]
    ensures k in PrefixEntries(o, n) ==> PrefixEntries(o, n)[k] == o.entries[k]
  {
    if n > 0 {
      PrefixEntriesKeys(o, n - 1, k);
      assert o.keys[..n] == o.keys[..n - 1] + [o.keys[n - 1]];
    }
  }

  lemma PrefixEntriesAll(o: Dict)
    ensures PrefixEntries(o, |o.keys|) == o.entries
  {
    var p := PrefixEntries(o, |o.keys|);
    assert o.keys[..|o.keys|] == o.keys;
    forall k ensures k in p <==> k in o.entries {
      PrefixEntriesKeys(o, |o.keys|, k);
    }
    forall k | k in p ensures p[k] == o.entries[k] {
      PrefixEntriesKeys(o, |o.keys|, k);
    }
  }

  /** The `n`-th key of `o` is not among the keys before it. */
  lemma NotInPrefix(o: Dict, n: nat)
    requires 0 < n <= |o.keys|
    ensures o.keys[n - 1] !in PrefixEntries(o, n - 1)
  {
    var k := o.keys[n - 1];
    PrefixEntriesKeys(o, n - 1, k);
    assert forall i | 0 <= i < n - 1 :: o.keys[i] != k;
    assert k !in o.keys[..n - 1];
  }

  /** Assigning the first `n` keys of `o` one by one appends the new ones among them, in `o`'s order. */
  lemma {:induction false} UpdatedPrefixKeys(d: Dict, o: Dict, n: nat)
    requires n <= |o.keys|
    ensures UpdatedPrefix(d, o, n).keys == d.keys + NewKeys(o.keys[..n], d.entries)
  {
    if n > 0 {
      var prev := UpdatedPrefix(d, o, n - 1);
      var k := o.keys[n - 1];
      var before := NewKeys(o.keys[..n - 1], d.entries);
      UpdatedPrefixKeys(d, o, n - 1);
      assert prev.keys == d.keys + before;
      assert k in prev.entries <==> k in d.entries by {
        UpdatedPrefixEntries(d, o, n - 1);
        NotInPrefix(o, n);
      }
      assert NewKeys(o.keys[..n], d.entries) == before + (if k in d.entries then [] else [k]) by {
        var s := o.keys[..n];
        assert s[..|s| - 1] == o.keys[..n - 1];
      }
      if k !in d.entries {
        assert d.keys + (before + [k]) == (d.keys + before) + [k];
      }
    }
  }

  lemma MapUnionUpdate(a: map<Key, Record>, b: map<Key, Record>, k: Key, v: Record)
    ensures (a + b)[k := v] == a + b[k := v]
  {
  }

  /** Assigning the first `n` keys of `o` one by one gives each of them `o`'s record. */
  lemma {:induction false} UpdatedPrefixEntries(d: Dict, o: Dict, n: nat)
    requires n <= |o.keys|
    ensures UpdatedPrefix(d, o, n).entries == d.entries + PrefixEntries(o, n)
  {
    if n > 0 {
      UpdatedPrefixEntries(d, o, n - 1);
      var prev := UpdatedPrefix(d, o, n - 1);
      var k := o.keys[n - 1];
      var v := o.entries[k];
      assert UpdatedPrefix(d, o, n).entries == prev.entries[k := v];
      assert PrefixEntries(o, n) == PrefixEntries(o, n - 1)[k := v];
      MapUnionUpdate(d.entries, PrefixEntries(o, n - 1), k, v);
    }
  }

  /** `d.update(o)` is exactly the closed form `Merged(d, o)`. */
  lemma UpdateIsMerged(d: Dict, o: Dict)
    ensures Updated(d, o) == Merged(d, o)
  {
    UpdatedPrefixKeys(d, o, |o.keys|);
    UpdatedPrefixEntries(d, o, |o.keys|);
    assert o.keys[..|o.keys|] == o.keys;
    PrefixEntriesAll(o);
  }

  /** After `d.update(o)` the keys are exactly the keys of `d` together with the keys of `o`. */
  lemma UpdateKeys(d: Dict, o: Dict)
    ensures Updated(d, o).entries.Keys == d.entries.Keys + o.entries.Keys
  {
    UpdateIsMerged(d, o);
  }

  /** A key of `o` gets `o`'s whole record: there is no field-level merge with the old record. */
  lemma UpdateTakesNew(d: Dict, o: Dict, k: Key)
    requires k in o.entries
    ensures k in Updated(d, o).entries && Updated(d, o).entries[k] == o.entries[k]
  {
    UpdateIsMerged(d, o);
  }

  /**
   * A key only `d` has keeps its record, the keys of `d` keep their positions,
   * and the keys only `o` has are appended after them in `o`'s order.
   */
  lemma UpdateKeepsOld(d: Dict, o: Dict, k: Key)
    ensures k in d.entries && k !in o.entries ==>
              k in Updated(d, o).entries && Updated(d, o).entries[k] == d.entries[k]
    ensures |d.keys| <= |Updated(d, o).keys| && Updated(d, o).keys[..|d.keys|] == d.keys
    ensures Updated(d, o).keys[|d.keys|..] == NewKeys(o.keys, d.entries)
  {
    UpdateIsMerged(d, o);
    var r := Updated(d, o).keys;
    assert r == d.keys + NewKeys(o.keys, d.entries);
  }

  /** Updating an empty dictionary gives the other dictionary, order included. */
  lemma UpdateEmpty(o: Dict)
    ensures Updated(Empty, o) == o
  {
    var e: Dict := Empty;
    UpdateIsMerged(e, o);
    assert Merged(e, o).keys == o.keys by {
      NewKeysOfAbsent(o.keys);
      assert e.keys + NewKeys(o.keys, e.entries) == o.keys;
    }
    assert Merged(e, o).entries == o.entries by {
      assert e.entries + o.entries == o.entries;
    }
  }

  /** Updating twice with the same dictionary gives what updating once gives. */
  lemma UpdateIdempotent(d: Dict, o: Dict)
    ensures Updated(Updated(d, o), o) == Updated(d, o)
  {
    var once := Updated(d, o);
    UpdateIsMerged(d, o);
    UpdateIsMerged(once, o);
    NewKeysOfPresent(o.keys, once.entries);
    assert once.entries + o.entries == once.entries;
  }

  /**
   * A Python dictionary object that is updated in place. The field `keys`
   * holds the iteration order and `entries` the values.
   */
  class MutableDict {
    var keys: seq<Key>
    var entries: map<Key, Record>

    ghost predicate Valid()
      reads this
    {
      WellFormed(OrderedMap(keys, entries))
    }

    /** The dictionary the object currently holds. */
    function Value(): (d: Dict)
      requires Valid()
      reads this
      ensures d.keys == keys && d.entries == entries
    {
      OrderedMap(keys, entries)
    }

    /** `{}`, or a dictionary that starts as a copy of `d`. */
    constructor (d: Dict)
      ensures Valid() && Value() == d
    {
      keys := d.keys;
      entries := d.entries;
    }

    /** `self[k] = v`. */
    method Put(k: Key, v: Record)
      requires Valid()
      modifies this
      ensures Valid() && Value() == Assigned(old(Value()), k, v)
    {
      if k !in entries {
        keys := keys + [k];
      }
      entries := entries[k := v];
    }

    /** `self.update(o)`: assign the keys of `o` in `o`'s order. */
    method Update(o: Dict)
      requires Valid()
      modifies this
      ensures Valid() && Value() == Updated(old(Value()), o)
    {
      var i := 0;
      while i < |o.keys|
        invariant i <= |o.keys|
        invariant Valid() && Value() == UpdatedPrefix(old(Value()), o, i)
      {
        Put(o.keys[i], o.entries[o.keys[i]]);
        i := i + 1;
      }
    }
  }
}
