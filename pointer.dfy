/**
 * The handle registry (pointer.go): Go values cannot cross into C, so each
 * value handed to the native library is stored under a freshly allocated
 * opaque address, and callbacks map the address back to the value.
 * The concurrent map of the source is modelled as a sequential map.
 */
module Pointer {
  import opened Wrappers

  /** An opaque C address; `Nil` is the null pointer. */
  type Key = nat

  const Nil: Key := 0

  /** What restoring `k` from a store holding `store` yields. */
  function Lookup<V>(store: map<Key, V>, k: Key): (r: Option<V>)
    ensures r.Some? <==> k != Nil && k in store
    ensures r.Some? ==> r.value == store[k]
  {
    if k != Nil && k in store then Some(store[k]) else None
  }

  /** The store after unreferencing `k`: `k` is gone, every other key keeps its value. */
  function Forget<V>(store: map<Key, V>, k: Key): (r: map<Key, V>)
    ensures Lookup(r, k).None?
    ensures forall j :: j != k ==> Lookup(r, j) == Lookup(store, j)
    ensures r.Keys <= store.Keys
  {
    if k == Nil then store else store - {k}
  }

  /** The store after unreferencing every key of `ks`, in order. */
  function ForgetAll<V>(store: map<Key, V>, ks: seq<Key>): map<Key, V>
  {
    if ks == [] then store else Forget(ForgetAll(store, ks[..|ks| - 1]), ks[|ks| - 1])
  }

  /** Unreferencing a list of keys removes exactly those keys. */
  lemma {:induction false} ForgetAllRemovesExactly<V>(store: map<Key, V>, ks: seq<Key>)
    ensures forall k :: k in ks ==> Lookup(ForgetAll(store, ks), k).None?
    ensures forall j :: j !in ks ==> Lookup(ForgetAll(store, ks), j) == Lookup(store, j)
  {
    if ks != [] {
      var front, last := ks[..|ks| - 1], ks[|ks| - 1];
      ForgetAllRemovesExactly(store, front);
      assert ks == front + [last];
      forall k | k in ks ensures Lookup(ForgetAll(store, ks), k).None? {
        if k != last {
          assert k in front;
        }
      }
    }
  }

  /** The global store of saved values together with the address allocator. */
  class Registry<V> {
    /** The saved values by address. */
    var entries: map<Key, V>
    /** The next address the allocator hands out; addresses are never reused. */
    var next: Key

    ghost predicate Valid()
      reads this
    {
      && Nil < next
      && forall k :: k in entries ==> Nil < k < next
    }

    constructor ()
      ensures Valid() && entries == map[]
    {
      entries := map[];
      next := 1;
    }

    /**
     * savePointer: nil is not stored and yields the null address; any other
     * value is stored under a fresh address that is not currently live.
     */
    method Save(v: Option<V>) returns (k: Key)
      requires Valid()
      modifies this
      ensures Valid()
      ensures v.None? ==> k == Nil && entries == old(entries)
      ensures v.Some? ==> k != Nil && k !in old(entries) && entries == old(entries)[k := v.value]
    {
      if v.None? {
        return Nil;
      }
      k := next;
      next := next + 1;
      entries := entries[k := v.value];
    }

    /** restorePointer: the value saved under `k`, or nil when `k` is null or not live. */
    function Restore(k: Key): (r: Option<V>)
      reads this
      ensures r.Some? <==> k != Nil && k in entries
      ensures r.Some? ==> r.value == entries[k]
    {
      Lookup(entries, k)
    }

    /** unrefPointer: drops `k`; the null address is ignored. */
    method Unref(k: Key)
      requires Valid()
      modifies this
      ensures Valid() && next == old(next)
      ensures entries == Forget(old(entries), k)
    {
      if k == Nil {
        return;
      }
      entries := entries - {k};
    }

    /** unrefPointers: drops every key of `ks`, in order. */
    method UnrefAll(ks: seq<Key>)
      requires Valid()
      modifies this
      ensures Valid() && next == old(next)
      ensures entries == ForgetAll(old(entries), ks)
    {
      var i := 0;
      while i < |ks|
        invariant 0 <= i <= |ks|
        invariant Valid() && next == old(next)
        invariant entries == ForgetAll(old(entries), ks[..i])
      {
        assert ks[..i + 1][..i] == ks[..i];
        Unref(ks[i]);
        i := i + 1;
      }
      assert ks[..|ks|] == ks;
    }
  }
}
