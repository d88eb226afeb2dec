/**
 * The registry of active tasks: a `Slab<Waker>`, a vector of slots that
 * hands out keys.  A vacated key goes on top of a free list, and the next
 * insertion reuses the most recently vacated key, else appends a slot.
 * Draining yields the values in key order and empties the slab.
 */
module ExecutorSlab {
  import opened Wrappers

  /** The occupied keys below n, in increasing order. */
  function KeysInOrder<T>(entries: map<nat, T>, n: nat): seq<nat> {
    if n == 0 then []
    else KeysInOrder(entries, n - 1) + (if n - 1 in entries then [n - 1] else [])
  }

  /** The values stored under the keys below n, in key order. */
  function ValuesInOrder<T>(entries: map<nat, T>, n: nat): seq<T> {
    if n == 0 then []
    else ValuesInOrder(entries, n - 1) + (if n - 1 in entries then [entries[n - 1]] else [])
  }

  /**
   * The keys below n come out strictly increasing, each occupied key once,
   * and the values come out under their keys.
   */
  lemma {:induction false} InOrderFacts<T>(entries: map<nat, T>, n: nat)
    ensures var ks := KeysInOrder(entries, n);
      && |ValuesInOrder(entries, n)| == |ks|
      && (forall i :: 0 <= i < |ks| ==> ks[i] in entries && ks[i] < n && ValuesInOrder(entries, n)[i] == entries[ks[i]])
      && (forall i, j :: 0 <= i < j < |ks| ==> ks[i] < ks[j])
      && (forall k :: k in entries && k < n ==> k in ks)
  {
    if n > 0 {
      InOrderFacts(entries, n - 1);
    }
  }

  /** With every key below n, the drained values are as many as the entries. */
  lemma InOrderCount<T>(entries: map<nat, T>, n: nat)
    requires forall k :: k in entries ==> k < n
    ensures |ValuesInOrder(entries, n)| == |entries|
  {
    InOrderFacts(entries, n);
    var ks := KeysInOrder(entries, n);
    assert entries.Keys == set i | 0 <= i < |ks| :: ks[i];
    SeqSetCount(ks);
  }

  /** A strictly increasing sequence has as many elements as its set. */
  lemma {:induction false} SeqSetCount(ks: seq<nat>)
    requires forall i, j :: 0 <= i < j < |ks| ==> ks[i] < ks[j]
    ensures |set i | 0 <= i < |ks| :: ks[i]| == |ks|
  {
    if |ks| > 0 {
      var init := ks[..|ks| - 1];
      SeqSetCount(init);
      var s := set i | 0 <= i < |ks| :: ks[i];
      var s' := set i | 0 <= i < |init| :: init[i];
      assert s == s' + {ks[|ks| - 1]} by {
        assert forall i :: 0 <= i < |init| ==> init[i] == ks[i];
      }
      assert ks[|ks| - 1] !in s';
    }
  }

  predicate DistinctKeys(s: seq<nat>) {
    forall i, j :: 0 <= i < j < |s| ==> s[i] != s[j]
  }

  /**
   * The slab's invariant: every key lies below the slot count, and the
   * free list holds, each once, exactly the vacant keys below it.
   */
  predicate SlabInv<T>(entries: map<nat, T>, free: seq<nat>, slots: nat) {
    && (forall k :: k in entries ==> k < slots)
    && DistinctKeys(free)
    && (forall i :: 0 <= i < |free| ==> free[i] < slots && free[i] !in entries)
    && (forall k: nat :: 0 <= k < slots && k !in entries ==> k in free)
  }

  /** The key `vacant_entry` reports: the top of the free list, else a new slot. */
  function NextKey(free: seq<nat>, slots: nat): nat {
    if |free| > 0 then free[|free| - 1] else slots
  }

  /** The key an insertion takes is vacant. */
  lemma NextKeyIsVacant<T>(entries: map<nat, T>, free: seq<nat>, slots: nat)
    requires SlabInv(entries, free, slots)
    ensures NextKey(free, slots) !in entries
  {
  }

  /** `slab::Slab<T>`: the occupied slots, the free list and the number of slots. */
  class Slab<T> {
    var entries: map<nat, T>
    var free: seq<nat>
    var slots: nat

    ghost predicate Valid()
      reads this
    {
      SlabInv(entries, free, slots)
    }

    /** `Slab::new`. */
    constructor ()
      ensures Valid() && entries == map[] && free == [] && slots == 0
    {
      entries, free, slots := map[], [], 0;
    }

    /** `Slab::is_empty`. */
    function IsEmpty(): (r: bool)
      reads this
      ensures r <==> entries == map[]
    {
      |entries| == 0
    }

    /** `vacant_entry().key()`: the key the next insertion takes. */
    function VacantKey(): nat
      reads this
    {
      NextKey(free, slots)
    }

    /** `VacantEntry::insert`: stores `value` under the vacant key. */
    method Insert(value: T) returns (key: nat)
      requires Valid()
      modifies this
      ensures Valid()
      ensures key == old(VacantKey()) && key !in old(entries)
      ensures entries == old(entries)[key := value]
    {
      key := NextKey(free, slots);
      if |free| > 0 {
        free := free[..|free| - 1];
      } else {
        slots := slots + 1;
      }
      entries := entries[key := value];
      assert forall i :: 0 <= i < |free| ==> free[i] != key;
    }

    /** `Slab::try_remove`: the value under `key`, which is vacated, or nothing. */
    method TryRemove(key: nat) returns (r: Option<T>)
      requires Valid()
      modifies this
      ensures Valid()
      ensures r.Some? <==> key in old(entries)
      ensures r.Some? ==> r.value == old(entries)[key]
      ensures entries == old(entries) - {key}
    {
      if key in entries {
        r := Some(entries[key]);
        entries := entries - {key};
        free := free + [key];
      } else {
        r := None;
      }
    }

    /** `Slab::drain`: every value, in key order, after which the slab is empty. */
    method Drain() returns (values: seq<T>)
      requires Valid()
      modifies this
      ensures Valid()
      ensures values == ValuesInOrder(old(entries), old(slots))
      ensures entries == map[] && free == [] && slots == 0
    {
      values := ValuesInOrder(entries, slots);
      entries, free, slots := map[], [], 0;
    }
  }
}
