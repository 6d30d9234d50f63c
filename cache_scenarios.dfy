/**
  What the scenarios of src/kudu/util/cache-test.cc expect of one cache shard,
  stated for every shard state and every key, value and charge rather than for
  the fixed numbers the tests use.
*/
module CacheScenarios {
  import opened Wrappers
  import opened CacheModel

  // ---------------------------------------------------------------------------
  // Eviction keeps the newest entries

  /**
    If the newest j entries fit in the capacity together, eviction stops before
    it reaches them.
  */
  lemma {:induction false} EvictKeepsTail(s: Shard, j: nat)
    requires Valid(s) && j <= |s.order|
    requires Charges(s.order[|s.order| - j..], s.entries) <= s.capacity
    ensures |Evict(s).order| >= j
    decreases |s.order|
  {
    if s.usage > s.capacity && |s.order| > 0 {
      assert j < |s.order|;
      var s1 := Erase(s, s.entries[s.order[0]].key);
      assert Evict(s) == Evict(s1);
      EraseHeadTail(s, s1, j);
      EvictKeepsTail(s1, j);
    }
  }

  /** Erasing the head of the residency list leaves the newest j entries and their charges alone. */
  lemma EraseHeadTail(s: Shard, s1: Shard, j: nat)
    requires Valid(s) && j < |s.order| && s1 == Erase(s, s.entries[s.order[0]].key)
    ensures |s1.order| == |s.order| - 1
    ensures Charges(s1.order[|s1.order| - j..], s1.entries) == Charges(s.order[|s.order| - j..], s.entries)
    ensures s1.capacity == s.capacity
  {
    var k0 := s.entries[s.order[0]].key;
    EraseHead(s);
    EraseFrame(s, k0);
    var tail := s.order[|s.order| - j..];
    forall i | 0 <= i < |tail| ensures Charge(s1.entries, tail[i]) == Charge(s.entries, tail[i]) {
      assert tail[i] == s.order[|s.order| - j + i];
      assert tail[i] != s.order[0];
    }
    ChargesFrame(tail, s1.entries, s.entries);
  }

  /** The charge of a one-element list is its element's charge. */
  lemma ChargesOne(h: Handle, es: map<Handle, Entry>)
    ensures Charges([h], es) == Charge(es, h)
  {
    assert [h][..0] == [];
  }

  /**
    The entry j places from the newest end survives eviction, still indexed
    under its key, when the newest j entries fit in the capacity together.
  */
  lemma EvictKeepsAt(l: Shard, j: nat)
    requires Valid(l) && 0 < j <= |l.order|
    requires Charges(l.order[|l.order| - j..], l.entries) <= l.capacity
    ensures l.entries[l.order[|l.order| - j]].key in Evict(l).index
    ensures Evict(l).index[l.entries[l.order[|l.order| - j]].key] == l.order[|l.order| - j]
  {
    EvictKeepsTail(l, j);
    EvictSuffix(l);
    var r := Evict(l);
    var g := l.order[|l.order| - j];
    assert r.order[|r.order| - j] == g;
    assert r.entries[g].inIndex;
    EvictIndex(l, r.entries[g].key);
  }

  /** A pending entry no heavier than the capacity is indexed under its key once Insert returns. */
  lemma InsertResident(s: Shard, h: Handle)
    requires Valid(s) && h in s.entries && !s.entries[h].inIndex
    requires s.entries[h].charge <= s.capacity
    ensures s.entries[h].key in Insert(s, h).index && Insert(s, h).index[s.entries[h].key] == h
  {
    InsertLinked(s, h);
    var l := Link(Erase(s, s.entries[h].key), h);
    assert l.order[|l.order| - 1..] == [h];
    ChargesOne(h, l.entries);
    EraseFrame(s, s.entries[h].key);
    EvictKeepsAt(l, 1);
  }

  /** Insert takes no other key in: another key that is indexed afterwards was before, with the same entry. */
  lemma InsertOtherKey(s: Shard, h: Handle, k2: Key)
    requires Valid(s) && h in s.entries && !s.entries[h].inIndex && k2 != s.entries[h].key
    ensures k2 in Insert(s, h).index ==>
              k2 in s.index && Insert(s, h).index[k2] == s.index[k2] && s.index[k2] != h &&
              Insert(s, h).entries[s.index[k2]] == s.entries[s.index[k2]]
  {
    var k := s.entries[h].key;
    InsertLinked(s, h);
    var e := Erase(s, k);
    EvictIndex(Link(e, h), k2);
    if k2 in e.index {
      EraseFrame(s, k);
      if k in s.index {
        assert s.entries[s.index[k]].key == k;
      }
    }
  }

  /** The charge of the entry indexed under k, if any. */
  function OldCharge(s: Shard, k: Key): nat
  {
    if k in s.index then Charge(s.entries, s.index[k]) else 0
  }

  /** An entry of charge c under k fits in the shard once k's old entry is gone. */
  predicate Fits(s: Shard, k: Key, c: nat)
  {
    s.usage - OldCharge(s, k) + c <= s.capacity
  }

  /** An insert that fits evicts nothing beyond the old entry under the key. */
  lemma InsertNoEviction(s: Shard, h: Handle)
    requires Valid(s) && h in s.entries && !s.entries[h].inIndex
    requires Fits(s, s.entries[h].key, s.entries[h].charge)
    ensures h in Erase(s, s.entries[h].key).entries
    ensures Insert(s, h) == Link(Erase(s, s.entries[h].key), h)
  {
    InsertLinked(s, h);
    EraseFrame(s, s.entries[h].key);
  }

  /** An insert that fits leaves the new entry indexed under its key, and the other keys of the erase. */
  lemma InsertFitsIndex(s: Shard, h: Handle)
    requires Valid(s) && h in s.entries && !s.entries[h].inIndex
    requires Fits(s, s.entries[h].key, s.entries[h].charge)
    ensures Insert(s, h).index == (s.index - {s.entries[h].key})[s.entries[h].key := h]
    ensures h in Insert(s, h).entries && Insert(s, h).entries[h].refs >= 2
    ensures Insert(s, h).entries[h].value == s.entries[h].value
  {
    InsertNoEviction(s, h);
    EraseFrame(s, s.entries[h].key);
  }

  /**
    Of an insert that fits, only the replaced entry fires its callback, and only
    when nobody else holds it; a held one stays alive outside the index.
  */
  lemma InsertFitsLog(s: Shard, h: Handle)
    requires Valid(s) && h in s.entries && !s.entries[h].inIndex
    requires Fits(s, s.entries[h].key, s.entries[h].charge)
    ensures var k := s.entries[h].key;
            Insert(s, h).evicted ==
              s.evicted + if k in s.index && s.entries[s.index[k]].refs == 1
                          then [Evicted(k, s.entries[s.index[k]].value)] else []
  {
    var k := s.entries[h].key;
    InsertNoEviction(s, h);
    if k in s.index {
      EraseCallback(s, k);
    }
  }

  /** Of an insert that fits, a replaced entry someone still holds stays alive, out of the index. */
  lemma InsertFitsPinned(s: Shard, h: Handle)
    requires Valid(s) && h in s.entries && !s.entries[h].inIndex
    requires Fits(s, s.entries[h].key, s.entries[h].charge)
    requires s.entries[h].key in s.index && s.entries[s.index[s.entries[h].key]].refs >= 2
    ensures var g := s.index[s.entries[h].key];
            g != h && g in Insert(s, h).entries &&
            Insert(s, h).entries[g] == s.entries[g].(refs := s.entries[g].refs - 1, inIndex := false)
  {
    var k := s.entries[h].key;
    InsertNoEviction(s, h);
    EraseCallback(s, k);
  }

  // ---------------------------------------------------------------------------
  // The fixture's Insert, step by step

  /** The shard with a fresh entry for (k, v) of charge c filled in, not yet indexed. */
  function Filled(s: Shard, k: Key, v: Value, c: nat): Shard
  {
    s.(entries := s.entries[s.next := Entry(k, v, c, 1, false)], next := s.next + 1)
  }

  lemma FilledFacts(s: Shard, k: Key, v: Value, c: nat)
    requires Valid(s)
    ensures s.next !in s.entries
    ensures Valid(Filled(s, k, v, c)) && s.next in Filled(s, k, v, c).entries
    ensures Filled(s, k, v, c).entries[s.next] == Entry(k, v, c, 1, false)
    ensures k in s.index ==> s.index[k] != s.next && Filled(s, k, v, c).entries[s.index[k]] == s.entries[s.index[k]]
    ensures Fits(Filled(s, k, v, c), k, c) == Fits(s, k, c)
  {
    var a := Allocate(s, k, c);
    assert SetValue(a.0, a.1, v) == Filled(s, k, v, c);
  }

  /**
    The fixture's Insert is Insert of the filled entry s.next, followed by
    dropping the fixture's handle to it.
  */
  lemma InsertValueIs(s: Shard, k: Key, v: Value, c: nat)
    requires Valid(s)
    ensures Valid(Filled(s, k, v, c)) && s.next in Filled(s, k, v, c).entries
    ensures !Filled(s, k, v, c).entries[s.next].inIndex
    ensures s.next in Insert(Filled(s, k, v, c), s.next).entries
    ensures Insert(Filled(s, k, v, c), s.next).entries[s.next].refs >= 2 ||
            !Insert(Filled(s, k, v, c), s.next).entries[s.next].inIndex
    ensures InsertValue(s, k, v, c) == Unref(Insert(Filled(s, k, v, c), s.next), s.next)
  {
    FilledFacts(s, k, v, c);
    var a := Allocate(s, k, c);
    assert SetValue(a.0, a.1, v) == Filled(s, k, v, c);
    InsertKeeps(Filled(s, k, v, c), s.next);
  }

  /** Dropping one of several references changes nothing but the count. */
  lemma UnrefPinned(r: Shard, h: Handle)
    requires h in r.entries && r.entries[h].refs >= 2
    ensures Unref(r, h) == r.(entries := r.entries[h := r.entries[h].(refs := r.entries[h].refs - 1)])
  {
  }

  // ---------------------------------------------------------------------------
  // HitAndMiss and HeavyEntries

  /** A value inserted with a charge within the capacity can be read back at once. */
  lemma PutGet(s: Shard, k: Key, v: Value, c: nat)
    requires Valid(s) && c <= s.capacity
    ensures LookupValue(InsertValue(s, k, v, c), k).1 == Some(v)
  {
    InsertValueIs(s, k, v, c);
    FilledFacts(s, k, v, c);
    var f := Filled(s, k, v, c);
    InsertResident(f, s.next);
    InsertKeeps(f, s.next);
    assert Insert(f, s.next).entries[s.next].inIndex;
    UnrefPinned(Insert(f, s.next), s.next);
  }

  /**
    Inserting under k never changes what another key reads: it is either still
    there with its old value or gone.
  */
  lemma InsertOthers(s: Shard, k: Key, v: Value, c: nat, k2: Key)
    requires Valid(s) && k2 != k
    ensures LookupValue(InsertValue(s, k, v, c), k2).1 == None ||
            LookupValue(InsertValue(s, k, v, c), k2).1 == LookupValue(s, k2).1
  {
    InsertValueIs(s, k, v, c);
    FilledFacts(s, k, v, c);
    InsertOtherKey(Filled(s, k, v, c), s.next, k2);
  }

  // ---------------------------------------------------------------------------
  // Invalidate

  /** A sweep that never erases anything, or never starts, returns the shard unchanged and 0. */
  lemma {:induction false} InvalidateFromNoop(s: Shard, valid: (Key, Value) -> bool, advance: (nat, nat) -> bool,
                                               kept: nat)
    requires Valid(s) && kept <= |s.order|
    requires (forall k, v :: valid(k, v)) || (forall a, b :: !advance(a, b))
    ensures InvalidateFrom(s, valid, advance, kept, 0) == (s, 0)
    decreases |s.order| - kept
  {
    if kept < |s.order| && advance(kept, 0) {
      var e := s.entries[s.order[kept]];
      assert valid(e.key, e.value);
      InvalidateFromNoop(s, valid, advance, kept + 1);
    }
  }

  /**
    InvalidateNoEntries and InvalidateNoEntriesNoAdvanceIterationFunctor: with
    everything valid, or an advance function that never goes on, nothing is
    removed.
  */
  lemma InvalidateNoop(s: Shard, valid: (Key, Value) -> bool, advance: (nat, nat) -> bool)
    requires Valid(s)
    requires (forall k, v :: valid(k, v)) || (forall a, b :: !advance(a, b))
    ensures Invalidate(s, valid, advance) == (s, 0)
  {
    InvalidateFromNoop(s, valid, advance, 0);
  }

  /**
    InvalidateOddKeyEntries: a full sweep keeps exactly the valid keys, with
    their entries, and counts the entries it took out.
  */
  lemma InvalidateSweep(s: Shard, valid: (Key, Value) -> bool, advance: (nat, nat) -> bool, k: Key)
    requires Valid(s) && forall a, b :: advance(a, b)
    ensures k in Invalidate(s, valid, advance).0.index <==>
              k in s.index && valid(k, s.entries[s.index[k]].value)
    ensures k in Invalidate(s, valid, advance).0.index ==>
              k in s.index && Invalidate(s, valid, advance).0.index[k] == s.index[k] &&
              Invalidate(s, valid, advance).0.entries[s.index[k]] == s.entries[s.index[k]]
    ensures Invalidate(s, valid, advance).1 == |s.order| - |Invalidate(s, valid, advance).0.order|
  {
    InvalidateKey(s, valid, advance, 0, 0, k);
    InvalidateCount(s, valid, advance, 0, 0);
  }

  /** InvalidateAllEntries: with nothing valid the sweep empties the shard and counts every entry. */
  lemma InvalidateAll(s: Shard, valid: (Key, Value) -> bool, advance: (nat, nat) -> bool)
    requires Valid(s) && (forall a, b :: advance(a, b)) && (forall k, v :: !valid(k, v))
    ensures Invalidate(s, valid, advance).0.index == map[]
    ensures Invalidate(s, valid, advance).0.order == []
    ensures Invalidate(s, valid, advance).1 == |s.order|
  {
    var r := Invalidate(s, valid, advance).0;
    forall k | k in r.index ensures false {
      InvalidateKey(s, valid, advance, 0, 0, k);
    }
    if |r.order| > 0 {
      assert false;
    }
    InvalidateCount(s, valid, advance, 0, 0);
  }

  // ---------------------------------------------------------------------------
  // Eviction with entries of one charge (FIFOCacheTest.EvictionPolicy)

  function Min(a: int, b: int): int
  {
    if a <= b then a else b
  }

  /** n entries of charge c fit in the capacity exactly when n is at most capacity / c. */
  lemma FitsUnder(n: nat, c: nat, capacity: nat)
    requires c > 0
    ensures n * c <= capacity <==> n <= capacity / c
  {
    var q := capacity / c;
    assert capacity == q * c + capacity % c;
    if n <= q {
      assert n * c <= q * c;
    } else {
      assert n * c >= (q + 1) * c;
    }
  }

  /** The summed charge of n entries of charge c. */
  lemma {:induction false} ChargesUniform(hs: seq<Handle>, es: map<Handle, Entry>, c: nat)
    requires forall i :: 0 <= i < |hs| ==> Charge(es, hs[i]) == c
    ensures Charges(hs, es) == |hs| * c
  {
    if |hs| > 0 {
      ChargesUniform(hs[..|hs| - 1], es, c);
    }
  }

  ghost predicate Uniform(s: Shard, c: nat)
  {
    forall i :: 0 <= i < |s.order| ==> Charge(s.entries, s.order[i]) == c
  }

  /** With every entry of charge c, eviction keeps as many of the newest entries as the capacity holds. */
  lemma {:induction false} EvictUniform(s: Shard, c: nat)
    requires Valid(s) && c > 0 && Uniform(s, c)
    ensures |Evict(s).order| == Min(|s.order|, s.capacity / c)
    decreases |s.order|
  {
    ChargesUniform(s.order, s.entries, c);
    FitsUnder(|s.order|, c, s.capacity);
    if s.usage > s.capacity && |s.order| > 0 {
      var s1 := Erase(s, s.entries[s.order[0]].key);
      assert Evict(s) == Evict(s1);
      EraseHeadUniform(s, s1, c);
      EvictUniform(s1, c);
    }
  }

  /** Erasing the head of a shard of entries of charge c leaves one entry fewer, all of charge c. */
  lemma EraseHeadUniform(s: Shard, s1: Shard, c: nat)
    requires Valid(s) && |s.order| > 0 && Uniform(s, c) && s1 == Erase(s, s.entries[s.order[0]].key)
    ensures |s1.order| == |s.order| - 1 && Uniform(s1, c) && s1.capacity == s.capacity
  {
    var k0 := s.entries[s.order[0]].key;
    EraseHead(s);
    EraseFrame(s, k0);
    forall i | 0 <= i < |s1.order| ensures Charge(s1.entries, s1.order[i]) == c {
      assert s1.order[i] == s.order[i + 1] && s.order[i + 1] != s.order[0];
    }
  }

  /**
    Inserting a pending entry of charge c under a new key into a shard of
    entries of charge c keeps the newest min(n + 1, capacity / c) entries, the
    new one last.
  */
  lemma InsertUniform(s: Shard, h: Handle, c: nat)
    requires Valid(s) && h in s.entries && !s.entries[h].inIndex && s.entries[h].key !in s.index
    requires c > 0 && s.entries[h].charge == c && Uniform(s, c)
    ensures |Insert(s, h).order| == Min(|s.order| + 1, s.capacity / c)
    ensures Insert(s, h).order == (s.order + [h])[|s.order| + 1 - |Insert(s, h).order|..]
  {
    var l := Link(s, h);
    assert Insert(s, h) == Evict(l) by {
      InsertLinked(s, h);
      assert Erase(s, s.entries[h].key) == s;
    }
    assert l.order == s.order + [h] && l.capacity == s.capacity;
    LinkUniform(s, h, c);
    EvictUniform(l, c);
    EvictSuffix(l);
  }

  /** Linking an entry of charge c behind entries of charge c. */
  lemma LinkUniform(s: Shard, h: Handle, c: nat)
    requires Valid(s) && h in s.entries && !s.entries[h].inIndex && s.entries[h].key !in s.index
    requires s.entries[h].charge == c && Uniform(s, c)
    ensures Valid(Link(s, h)) && Uniform(Link(s, h), c)
  {
    LinkValid(s, h);
    var l := Link(s, h);
    forall i | 0 <= i < |l.order| ensures Charge(l.entries, l.order[i]) == c {
      if i < |s.order| {
        assert l.order[i] == s.order[i] && s.order[i] != h;
      }
    }
  }

  // ---------------------------------------------------------------------------
  // Recency (LRUCacheTest.EvictionPolicy)

  /** Dropping an element that is not the last one keeps the last one last. */
  lemma RemoveAtKeepsLast(hs: seq<Handle>, i: nat)
    requires i < |hs| - 1
    ensures |RemoveAt(hs, i)| > 0 && RemoveAt(hs, i)[|RemoveAt(hs, i)| - 1] == hs[|hs| - 1]
  {
  }

  /** Erasing another key keeps the newest entry newest. */
  lemma EraseKeepsNewest(s: Shard, k: Key)
    requires Valid(s) && |s.order| > 0 && s.entries[s.order[|s.order| - 1]].key != k
    ensures |Erase(s, k).order| > 0 && Erase(s, k).order[|Erase(s, k).order| - 1] == s.order[|s.order| - 1]
  {
    if k in s.index {
      var i := IndexOf(s.order, s.index[k]);
      assert s.entries[s.index[k]].key == k;
      RemoveAtKeepsLast(s.order, i);
    }
  }

  /**
    The newest entry g of a shard survives an insert of another key, with its
    entry, when g and the new entry fit in the capacity together.
  */
  lemma InsertKeepsNewest(s: Shard, h: Handle)
    requires Valid(s) && h in s.entries && !s.entries[h].inIndex && |s.order| > 0
    requires s.entries[s.order[|s.order| - 1]].key != s.entries[h].key
    requires s.entries[s.order[|s.order| - 1]].charge + s.entries[h].charge <= s.capacity
    ensures s.entries[s.order[|s.order| - 1]].key in Insert(s, h).index
    ensures Insert(s, h).index[s.entries[s.order[|s.order| - 1]].key] == s.order[|s.order| - 1]
  {
    var g := s.order[|s.order| - 1];
    var k := s.entries[h].key;
    InsertLinked(s, h);
    var e := Erase(s, k);
    EraseKeepsNewest(s, k);
    EraseFrame(s, k);
    LinkNewestPair(e, h);
    EvictKeepsAt(Link(e, h), 2);
  }

  /** Linking h behind the newest entry g: the newest two are g and h, with their two charges. */
  lemma LinkNewestPair(e: Shard, h: Handle)
    requires Valid(e) && h in e.entries && !e.entries[h].inIndex && e.entries[h].key !in e.index
    requires |e.order| > 0
    requires e.entries[e.order[|e.order| - 1]].charge + e.entries[h].charge <= e.capacity
    ensures Valid(Link(e, h)) && |Link(e, h).order| >= 2
    ensures Link(e, h).order[|Link(e, h).order| - 2] == e.order[|e.order| - 1]
    ensures Link(e, h).entries[e.order[|e.order| - 1]] == e.entries[e.order[|e.order| - 1]]
    ensures Charges(Link(e, h).order[|Link(e, h).order| - 2..], Link(e, h).entries) <= Link(e, h).capacity
  {
    LinkValid(e, h);
    var g := e.order[|e.order| - 1];
    var l := Link(e, h);
    assert g != h;
    assert l.order[|l.order| - 2..] == [g, h];
    assert [g, h][..1] == [g];
    ChargesOne(g, l.entries);
  }

  /**
    Under LRU a lookup makes the key's entry the newest, so InsertKeepsNewest
    protects it from the next insert; under FIFO a lookup leaves the shard as
    it was.
  */
  lemma LookupRecency(s: Shard, k: Key)
    requires Valid(s) && k in s.index
    ensures s.policy == LRU ==>
              LookupValue(s, k).0.order[|LookupValue(s, k).0.order| - 1] == s.index[k] &&
              LookupValue(s, k).0.entries == s.entries && LookupValue(s, k).0.index == s.index
    ensures s.policy == FIFO ==> LookupValue(s, k).0 == s
  {
  }
}
