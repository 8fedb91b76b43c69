/**
 * `FinalIntMap` of the Truffle polyglot engine: an append-only association list
 * from objects, compared by identity, to non-negative Java `int`s, kept as a
 * singly linked chain of `Entry` nodes.
 */
module Polyglot {

  /** Java's 32-bit `int`. */
  newtype int32 = x: int | -0x8000_0000 <= x < 0x8000_0000

  /** The value `get` returns for a key that has no entry. */
  const Absent: int32 := -1

  /** The abstract content of a map: its (key, value) entries in chain order. */
  type Entries = seq<(object?, int32)>

  /** The value of the first entry whose key is identical to `key`, or `Absent`. */
  function Lookup(entries: Entries, key: object?): int32 {
    if entries == [] then Absent
    else if entries[0].0 == key then entries[0].1
    else Lookup(entries[1..], key)
  }

  predicate HasKey(entries: Entries, key: object?) {
    exists t :: 0 <= t < |entries| && entries[t].0 == key
  }

  predicate DistinctKeys(entries: Entries) {
    forall t, u :: 0 <= t < u < |entries| ==> entries[t].0 != entries[u].0
  }

  predicate NonNegativeValues(entries: Entries) {
    forall t :: 0 <= t < |entries| ==> entries[t].1 >= 0
  }

  /** The map the entries stand for. */
  ghost function AsMap(entries: Entries): map<object?, int32>
    decreases |entries|
  {
    if entries == [] then map[]
    else AsMap(entries[..|entries| - 1])[entries[|entries| - 1].0 := entries[|entries| - 1].1]
  }

  // ---------------------------------------------------------------------------
  // What `get` returns.

  /** `get` returns the value of the first entry whose key is identical to the argument. */
  lemma {:induction false} LookupFindsFirst(entries: Entries, key: object?, t: nat)
    requires t < |entries| && entries[t].0 == key
    requires forall u :: 0 <= u < t ==> entries[u].0 != key
    ensures Lookup(entries, key) == entries[t].1
  {
    if t > 0 {
      LookupFindsFirst(entries[1..], key, t - 1);
    }
  }

  /** `get` returns -1 when no entry has the key. */
  lemma {:induction false} LookupMissing(entries: Entries, key: object?)
    requires !HasKey(entries, key)
    ensures Lookup(entries, key) == Absent
    decreases |entries|
  {
    if entries != [] {
      assert entries[0].0 != key;
      LookupMissing(entries[1..], key);
    }
  }

  /**
   * With non-negative values `get` returns -1 exactly when the key is absent,
   * and otherwise a non-negative value.
   */
  lemma {:induction false} LookupAbsentIff(entries: Entries, key: object?)
    requires NonNegativeValues(entries)
    ensures Lookup(entries, key) == Absent <==> !HasKey(entries, key)
    ensures Lookup(entries, key) == Absent || Lookup(entries, key) >= 0
    decreases |entries|
  {
    if entries == [] {
    } else if entries[0].0 == key {
      assert entries[0].1 >= 0;
    } else {
      var rest := entries[1..];
      assert NonNegativeValues(rest) by {
        forall t | 0 <= t < |rest| ensures rest[t].1 >= 0 {
          assert rest[t] == entries[t + 1];
        }
      }
      LookupAbsentIff(rest, key);
      if HasKey(rest, key) {
        var t :| 0 <= t < |rest| && rest[t].0 == key;
        assert entries[t + 1].0 == key;
      }
      if HasKey(entries, key) {
        var t :| 0 <= t < |entries| && entries[t].0 == key;
        assert t > 0 && rest[t - 1].0 == key;
      }
    }
  }

  /**
   * Appending an entry for an absent key: `get` of that key now yields its value,
   * and `get` of every other key is unchanged.
   */
  lemma {:induction false} LookupAfterAppend(entries: Entries, key: object?, value: int32, other: object?)
    requires !HasKey(entries, key)
    ensures Lookup(entries + [(key, value)], key) == value
    ensures other != key ==> Lookup(entries + [(key, value)], other) == Lookup(entries, other)
    decreases |entries|
  {
    if entries == [] {
      assert [(key, value)][1..] == [];
    } else {
      assert (entries + [(key, value)])[1..] == entries[1..] + [(key, value)];
      assert entries[0].0 != key;
      LookupAfterAppend(entries[1..], key, value, other);
    }
  }

  /** With distinct keys the chain is a map, and `get` is a lookup in it with default -1. */
  lemma {:induction false} LookupIsMapLookup(entries: Entries, key: object?)
    requires DistinctKeys(entries)
    ensures Lookup(entries, key) == if key in AsMap(entries) then AsMap(entries)[key] else Absent
    ensures key in AsMap(entries) <==> HasKey(entries, key)
    decreases |entries|
  {
    if entries != [] {
      var n := |entries| - 1;
      var init := entries[..n];
      var (k, v) := entries[n];
      assert entries == init + [(k, v)];
      assert DistinctKeys(init) by {
        forall t, u | 0 <= t < u < |init| ensures init[t].0 != init[u].0 {
          assert init[t] == entries[t] && init[u] == entries[u];
        }
      }
      assert !HasKey(init, k) by {
        forall t | 0 <= t < |init| ensures init[t].0 != k {
          assert init[t] == entries[t];
        }
      }
      LookupIsMapLookup(init, key);
      LookupAfterAppend(init, k, v, key);
      if HasKey(init, key) {
        var t :| 0 <= t < |init| && init[t].0 == key;
        assert entries[t].0 == key;
      }
      if HasKey(entries, key) && key != k {
        var t :| 0 <= t < |entries| && entries[t].0 == key;
        assert t < n && init[t].0 == key;
      }
    }
  }

  // ---------------------------------------------------------------------------
  // The linked structure.

  /** One association; its key and value are final, its successor is set once. */
  class Entry {
    const key: object?
    const value: int32
    var next: Entry?

    constructor (key: object?, value: int32)
      ensures this.key == key && this.value == value && next == null
    {
      this.key := key;
      this.value := value;
      next := null;
    }
  }

  class FinalIntMap {
    var first: Entry?
    /** The entries of the chain from `first`, in order. */
    ghost var nodes: seq<Entry>

    /**
     * `first` starts the chain, every node links to the next, the last ends it;
     * keys are pairwise distinct and values non-negative.
     */
    ghost predicate Valid()
      reads this, nodes
    {
      (first == if nodes == [] then null else nodes[0]) &&
      (forall t :: 0 <= t < |nodes| - 1 ==> nodes[t].next == nodes[t + 1]) &&
      (nodes != [] ==> nodes[|nodes| - 1].next == null) &&
      DistinctKeys(Contents()) && NonNegativeValues(Contents())
    }

    /** The (key, value) entries, in chain order. */
    ghost function Contents(): Entries
      reads this
    {
      var ns := nodes;
      seq(|ns|, t requires 0 <= t < |ns| => (ns[t].key, ns[t].value))
    }

    constructor ()
      ensures Valid() && Contents() == [] && first == null
    {
      first := null;
      nodes := [];
    }

    /** The value associated with `key`, or -1 if there is none. */
    method Get(key: object?) returns (r: int32)
      requires Valid()
      ensures r == Lookup(Contents(), key)
      ensures r == Absent <==> !HasKey(Contents(), key)
      ensures r != Absent ==> r >= 0
    {
      LookupAbsentIff(Contents(), key);
      ghost var entries := Contents();
      var current := first;
      ghost var k := 0;
      while current != null
        invariant 0 <= k <= |nodes|
        invariant current == if k < |nodes| then nodes[k] else null
        invariant Lookup(entries[k..], key) == Lookup(entries, key)
        decreases |nodes| - k
      {
        assert entries[k..][0] == (current.key, current.value);
        assert entries[k..][1..] == entries[k + 1..];
        if current.key == key {
          return current.value;
        }
        current := current.next;
        k := k + 1;
      }
      return Absent;
    }

    /**
     * Appends an entry for `key` at the end of the chain. Replacing a key and
     * negative values are not supported.
     */
    method Put(key: object?, value: int32)
      requires Valid()
      requires Lookup(Contents(), key) == Absent
      requires value >= 0
      modifies this, nodes
      ensures Valid()
      ensures Contents() == old(Contents()) + [(key, value)]
      ensures |nodes| == |old(nodes)| + 1 && nodes[..|old(nodes)|] == old(nodes) && fresh(nodes[|nodes| - 1])
      ensures old(first) == null ==> first == nodes[0] && fresh(first)
      ensures old(first) != null ==> first == old(first)
      ensures Lookup(Contents(), key) == value
      ensures forall other :: other != key ==> Lookup(Contents(), other) == Lookup(old(Contents()), other)
    {
      LookupAbsentIff(Contents(), key);
      ghost var before := Contents();
      var prev: Entry? := null;
      var current := first;
      ghost var k := 0;
      while current != null
        invariant 0 <= k <= |nodes|
        invariant current == if k < |nodes| then nodes[k] else null
        invariant prev == if k == 0 then null else nodes[k - 1]
        decreases |nodes| - k
      {
        prev := current;
        current := current.next;
        k := k + 1;
      }
      var entry := new Entry(key, value);
      if prev == null {
        first := entry;
      } else {
        prev.next := entry;
      }
      nodes := nodes + [entry];
      assert nodes[..|old(nodes)|] == old(nodes);
      assert |Contents()| == |before| + 1;
      forall t | 0 <= t < |before|
        ensures Contents()[t] == before[t]
      {
        assert nodes[t] == old(nodes)[t];
      }
      assert Contents() == before + [(key, value)];
      forall other | other != key
        ensures Lookup(Contents(), other) == Lookup(before, other)
      {
        LookupAfterAppend(before, key, value, other);
      }
      LookupAfterAppend(before, key, value, key);
    }
  }
}
