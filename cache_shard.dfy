/**
  One cache shard as the mutable object the tests of src/kudu/util/cache-test.cc
  drive: its index, residency list, reference counts, usage and callback log are
  fields that each call updates in place. Every method is proved to move the
  fields exactly as the matching transition of CacheModel moves a shard value,
  so everything proved there (CacheModel, CacheScenarios) holds of this object.
*/
module BlockCache {
  import opened Wrappers
  import opened CacheModel

  class CacheShard {
    var policy: Policy
    var capacity: nat
    var usage: int
    var entries: map<Handle, Entry>
    var index: map<Key, Handle>
    var order: seq<Handle>
    var evicted: seq<Evicted>
    var next: Handle

    /** The shard value the fields hold. */
    function Model(): Shard
      reads this
    {
      Shard(policy, capacity, usage, entries, index, order, evicted, next)
    }

    ghost predicate Valid()
      reads this
    {
      CacheModel.Valid(Model())
    }

    /** An empty shard with the given eviction policy and capacity. */
    constructor(policy: Policy, capacity: nat)
      ensures Model() == Empty(policy, capacity) && Valid()
    {
      this.policy := policy;
      this.capacity := capacity;
      usage := 0;
      entries := map[];
      index := map[];
      order := [];
      evicted := [];
      next := 0;
    }

    /** Allocate: a pending entry for key, pinned by the returned handle. */
    method Allocate(key: Key, charge: nat) returns (h: Handle)
      requires Valid()
      modifies this
      ensures (Model(), h) == CacheModel.Allocate(old(Model()), key, charge)
      ensures Valid()
    {
      h := next;
      entries := entries[h := Entry(key, 0, charge, 1, false)];
      next := next + 1;
    }

    /** Writing the value of a pending entry through its handle. */
    method SetValue(h: Handle, v: Value)
      requires Valid() && h in entries && !entries[h].inIndex
      modifies this
      ensures Model() == CacheModel.SetValue(old(Model()), h, v)
      ensures Valid()
    {
      entries := entries[h := entries[h].(value := v)];
    }

    /** The value behind a handle the caller holds. */
    function Value(h: Handle): (v: Value)
      requires h in entries
      reads this
      ensures v == Model().entries[h].value
    {
      entries[h].value
    }

    /** Release: drops the caller's reference; the last one fires the eviction callback. */
    method Release(h: Handle)
      requires Valid()
      requires h in entries && (entries[h].refs >= 2 || !entries[h].inIndex)
      modifies this
      ensures Model() == Unref(old(Model()), h)
      ensures Valid()
    {
      UnrefValid(Model(), h);
      var e := entries[h];
      if e.refs <= 1 {
        entries := entries - {h};
        evicted := evicted + [Evicted(e.key, e.value)];
      } else {
        entries := entries[h := e.(refs := e.refs - 1)];
      }
    }

    /** Erase: takes k out of the index and the residency list and drops the index's reference. */
    method Erase(k: Key)
      requires Valid()
      modifies this
      ensures Model() == CacheModel.Erase(old(Model()), k)
      ensures Valid()
    {
      if k in index {
        var h := index[k];
        var i := IndexOf(order, h);
        var e := entries[h];
        DetachedValid(Model(), i);
        entries := entries[h := e.(inIndex := false)];
        index := index - {k};
        order := RemoveAt(order, i);
        usage := usage - e.charge;
        Release(h);
      }
    }

    /** Indexes the pending entry h at the newest end of the residency list. */
    method Link(h: Handle)
      requires h in entries
      modifies this
      ensures Model() == CacheModel.Link(old(Model()), h)
    {
      var e := entries[h];
      entries := entries[h := e.(refs := e.refs + 1, inIndex := true)];
      index := index[e.key := h];
      order := order + [h];
      usage := usage + e.charge;
    }

    /**
      Insert: replaces whatever k's entry was, links h as the newest entry, then
      evicts from the head of the residency list while the usage exceeds the
      capacity.
    */
    method Insert(h: Handle)
      requires Valid() && h in entries && !entries[h].inIndex
      modifies this
      ensures Model() == CacheModel.Insert(old(Model()), h)
      ensures Valid()
    {
      ghost var target := CacheModel.Insert(Model(), h);
      InsertLinked(Model(), h);
      Erase(entries[h].key);
      Link(h);
      while usage > capacity && |order| > 0
        invariant Valid()
        invariant Evict(Model()) == target
        decreases |order|
      {
        EvictStep(Model());
        Erase(entries[order[0]].key);
      }
    }

    /** Lookup: a new handle to k's entry; under LRU the entry becomes the most recently used. */
    method Lookup(k: Key) returns (oh: Option<Handle>)
      requires Valid()
      modifies this
      ensures (Model(), oh) == CacheModel.Lookup(old(Model()), k)
      ensures Valid()
    {
      if k !in index {
        return None;
      }
      var h := index[k];
      PinValid(Model(), h);
      entries := entries[h := entries[h].(refs := entries[h].refs + 1)];
      if policy == LRU {
        MoveToBackValid(Model(), IndexOf(order, h));
        order := MoveToBack(order, IndexOf(order, h));
      }
      oh := Some(h);
    }

    /**
      Invalidate: walks the residency list from its head; before each entry the
      advance function decides whether to go on, and an entry the validity
      function rejects is erased. Returns the number erased.
    */
    method Invalidate(valid: (Key, Value) -> bool, advance: (nat, nat) -> bool) returns (count: nat)
      requires Valid()
      modifies this
      ensures (Model(), count) == CacheModel.Invalidate(old(Model()), valid, advance)
      ensures Valid()
    {
      ghost var target := CacheModel.Invalidate(Model(), valid, advance);
      var kept := 0;
      count := 0;
      while kept < |order| && advance(kept, count)
        invariant Valid() && kept <= |order|
        invariant InvalidateFrom(Model(), valid, advance, kept, count) == target
        decreases |order| - kept
      {
        var e := entries[order[kept]];
        if valid(e.key, e.value) {
          kept := kept + 1;
        } else {
          EraseAt(Model(), kept);
          Erase(e.key);
          count := count + 1;
        }
      }
    }

    /** The test fixture's Insert: Allocate, fill the value, Insert and release the handle. */
    method InsertValue(k: Key, v: Value, charge: nat)
      requires Valid()
      modifies this
      ensures Model() == CacheModel.InsertValue(old(Model()), k, v, charge)
      ensures Valid()
    {
      var h := Allocate(k, charge);
      SetValue(h, v);
      ghost var s2 := Model();
      Insert(h);
      InsertKeeps(s2, h);
      Release(h);
    }

    /** The test fixture's Lookup: the value under k, if any, with the handle released at once. */
    method LookupValue(k: Key) returns (ov: Option<Value>)
      requires Valid()
      modifies this
      ensures (Model(), ov) == CacheModel.LookupValue(old(Model()), k)
      ensures Valid()
    {
      ghost var s0 := Model();
      var oh := Lookup(k);
      match oh {
        case None =>
          ov := None;
        case Some(h) =>
          ov := Some(Value(h));
          LookupRelease(s0, k);
          Release(h);
      }
    }
  }
}
