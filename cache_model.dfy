/**
  One shard of Kudu's block cache, as a value. The cache implementation itself
  (cache.cc) is not part of this model; its observable behaviour is the one the
  scenarios of src/kudu/util/cache-test.cc pin down, and this module states it as
  transitions of a shard state:

    - an index from key to entry, in which each key has at most one entry;
    - the residency list of the indexed entries, the next victim first (oldest
      for FIFO, least recently used for LRU);
    - per-entry reference counts (the index holds one reference, each handle
      held by a caller one more) and an in-index flag;
    - the usage, i.e. the summed charge of the indexed entries, and the capacity;
    - the log of eviction callbacks, in the order they fire.

  An entry removed from the index stays alive while a handle pins it; its
  eviction callback fires when its last reference is dropped.
  Keys and values are the integers the test fixture encodes into 4-byte slices.
*/
module CacheModel {
  import opened Wrappers

  type Key = int
  type Value = int
  /** The identity of an entry: what a caller's handle points at. */
  type Handle = nat

  datatype Policy = FIFO | LRU

  datatype Entry = Entry(key: Key, value: Value, charge: nat, refs: nat, inIndex: bool)

  /** One call of the eviction callback. */
  datatype Evicted = Evicted(key: Key, value: Value)

  datatype Shard = Shard(
    policy: Policy,
    capacity: nat,
    usage: int,
    entries: map<Handle, Entry>,   // every entry not yet freed
    index: map<Key, Handle>,
    order: seq<Handle>,            // the indexed entries, next victim first
    evicted: seq<Evicted>,
    next: Handle)                  // the identity the next allocation gets

  function Charge(es: map<Handle, Entry>, h: Handle): nat
  {
    if h in es then es[h].charge else 0
  }

  /** The summed charge of the entries hs. */
  function Charges(hs: seq<Handle>, es: map<Handle, Entry>): nat
  {
    if |hs| == 0 then 0 else Charges(hs[..|hs| - 1], es) + Charge(es, hs[|hs| - 1])
  }

  ghost predicate NoDup(hs: seq<Handle>)
  {
    forall i, j :: 0 <= i < j < |hs| ==> hs[i] != hs[j]
  }

  /** hs without its element at position i. */
  function RemoveAt(hs: seq<Handle>, i: nat): (r: seq<Handle>)
    requires i < |hs|
    ensures |r| == |hs| - 1
    ensures forall j :: 0 <= j < i ==> r[j] == hs[j]
    ensures forall j :: i <= j < |r| ==> r[j] == hs[j + 1]
  {
    hs[..i] + hs[i + 1..]
  }

  /** The position of h in hs. */
  function IndexOf(hs: seq<Handle>, h: Handle): (i: nat)
    requires h in hs
    ensures i < |hs| && hs[i] == h
  {
    if hs[0] == h then 0 else 1 + IndexOf(hs[1..], h)
  }

  /** The index entry for k is alive, carries k and knows it is indexed. */
  ghost predicate IndexedAt(s: Shard, k: Key)
    requires k in s.index
  {
    && s.index[k] in s.entries
    && s.entries[s.index[k]].key == k
    && s.entries[s.index[k]].inIndex
  }

  /** Every live entry has an identity below next and at least one reference. */
  ghost predicate EntriesAlive(s: Shard)
  {
    forall h :: h in s.entries ==> h < s.next && s.entries[h].refs >= 1
  }

  /** Every key of the index leads to a live, indexed entry for that key on the residency list. */
  ghost predicate IndexSound(s: Shard)
  {
    forall k :: k in s.index ==> IndexedAt(s, k) && s.index[k] in s.order
  }

  /** An entry flagged as indexed is the one its key leads to. */
  ghost predicate FlagSound(s: Shard)
  {
    forall h :: h in s.entries && s.entries[h].inIndex ==>
      s.entries[h].key in s.index && s.index[s.entries[h].key] == h
  }

  /** The residency list holds live, indexed entries, each once. */
  ghost predicate OrderSound(s: Shard)
  {
    && (forall i :: 0 <= i < |s.order| ==> s.order[i] in s.entries && s.entries[s.order[i]].inIndex)
    && NoDup(s.order)
  }

  /** The invariant every shard operation keeps. */
  ghost predicate Valid(s: Shard)
  {
    && EntriesAlive(s)
    && IndexSound(s)
    && FlagSound(s)
    && OrderSound(s)
    && s.usage == Charges(s.order, s.entries)
  }

  /** A new, empty shard. */
  function Empty(policy: Policy, capacity: nat): (s: Shard)
    ensures Valid(s)
  {
    Shard(policy, capacity, 0, map[], map[], [], [], 0)
  }

  // ---------------------------------------------------------------------------
  // Summed charges

  lemma {:induction false} ChargesSplit(a: seq<Handle>, b: seq<Handle>, es: map<Handle, Entry>)
    ensures Charges(a + b, es) == Charges(a, es) + Charges(b, es)
    decreases |b|
  {
    if |b| == 0 {
      assert a + b == a;
    } else {
      assert (a + b)[..|a + b| - 1] == a + b[..|b| - 1];
      ChargesSplit(a, b[..|b| - 1], es);
    }
  }

  lemma {:induction false} ChargesFrame(hs: seq<Handle>, es1: map<Handle, Entry>, es2: map<Handle, Entry>)
    requires forall i :: 0 <= i < |hs| ==> Charge(es1, hs[i]) == Charge(es2, hs[i])
    ensures Charges(hs, es1) == Charges(hs, es2)
  {
    if |hs| > 0 {
      ChargesFrame(hs[..|hs| - 1], es1, es2);
    }
  }

  lemma ChargesRemoveAt(hs: seq<Handle>, i: nat, es: map<Handle, Entry>)
    requires i < |hs|
    ensures Charges(RemoveAt(hs, i), es) == Charges(hs, es) - Charge(es, hs[i])
  {
    assert hs == hs[..i] + [hs[i]] + hs[i + 1..];
    ChargesSplit(hs[..i] + [hs[i]], hs[i + 1..], es);
    ChargesSplit(hs[..i], [hs[i]], es);
    ChargesSplit(hs[..i], hs[i + 1..], es);
    assert Charges([hs[i]], es) == Charge(es, hs[i]) by {
      assert [hs[i]][..0] == [];
    }
  }

  // ---------------------------------------------------------------------------
  // Steps shared by the operations

  /**
    Takes the entry at position i of the residency list out of the index and the
    list and subtracts its charge from the usage; the index's reference is still
    to be dropped (Unref).
  */
  function Detached(s: Shard, i: nat): Shard
    requires i < |s.order| && s.order[i] in s.entries
  {
    var h := s.order[i];
    var e := s.entries[h];
    s.(entries := s.entries[h := e.(inIndex := false)],
       index := s.index - {e.key},
       order := RemoveAt(s.order, i),
       usage := s.usage - e.charge)
  }

  /**
    Drops one reference to h. The last one frees the entry, which fires its
    eviction callback.
  */
  function Unref(s: Shard, h: Handle): Shard
    requires h in s.entries && (s.entries[h].refs >= 2 || !s.entries[h].inIndex)
  {
    var e := s.entries[h];
    if e.refs <= 1 then
      s.(entries := s.entries - {h}, evicted := s.evicted + [Evicted(e.key, e.value)])
    else
      s.(entries := s.entries[h := e.(refs := e.refs - 1)])
  }

  /** Indexes the pending entry h at the newest end of the list, taking the index's reference. */
  function Link(s: Shard, h: Handle): Shard
    requires h in s.entries
  {
    var e := s.entries[h];
    s.(entries := s.entries[h := e.(refs := e.refs + 1, inIndex := true)],
       index := s.index[e.key := h],
       order := s.order + [h],
       usage := s.usage + e.charge)
  }

  lemma DetachedOrder(s: Shard, i: nat)
    requires Valid(s) && i < |s.order|
    ensures OrderSound(Detached(s, i))
    ensures s.order[i] !in Detached(s, i).order
  {
    var h := s.order[i];
    var r := Detached(s, i);
    forall j | 0 <= j < |r.order|
      ensures r.order[j] != h && r.order[j] in r.entries && r.entries[r.order[j]].inIndex
    {
      if j < i { assert r.order[j] == s.order[j]; } else { assert r.order[j] == s.order[j + 1]; }
    }
    forall j1, j2 | 0 <= j1 < j2 < |r.order|
      ensures r.order[j1] != r.order[j2]
    {
      var m1 := if j1 < i then j1 else j1 + 1;
      var m2 := if j2 < i then j2 else j2 + 1;
      assert r.order[j1] == s.order[m1] && r.order[j2] == s.order[m2];
    }
  }

  lemma DetachedIndex(s: Shard, i: nat)
    requires Valid(s) && i < |s.order|
    ensures IndexSound(Detached(s, i)) && FlagSound(Detached(s, i))
  {
    var h := s.order[i];
    var r := Detached(s, i);
    forall k | k in r.index
      ensures IndexedAt(r, k) && r.index[k] in r.order
    {
      assert s.index[k] != h;
      var p := IndexOf(s.order, s.index[k]);
      assert p != i;
      if p < i { assert r.order[p] == s.index[k]; } else { assert r.order[p - 1] == s.index[k]; }
    }
  }

  lemma DetachedUsage(s: Shard, i: nat)
    requires Valid(s) && i < |s.order|
    ensures Detached(s, i).usage == Charges(Detached(s, i).order, Detached(s, i).entries)
  {
    var r := Detached(s, i);
    assert Charges(r.order, r.entries) == Charges(r.order, s.entries) by {
      forall j | 0 <= j < |r.order|
        ensures r.order[j] != s.order[i]
      {
        if j < i { assert r.order[j] == s.order[j]; } else { assert r.order[j] == s.order[j + 1]; }
      }
      ChargesFrame(r.order, r.entries, s.entries);
    }
    ChargesRemoveAt(s.order, i, s.entries);
  }

  lemma DetachedValid(s: Shard, i: nat)
    requires Valid(s) && i < |s.order|
    ensures Valid(Detached(s, i))
    ensures s.order[i] in Detached(s, i).entries && !Detached(s, i).entries[s.order[i]].inIndex
  {
    DetachedOrder(s, i);
    DetachedIndex(s, i);
    DetachedUsage(s, i);
  }

  lemma UnrefValid(s: Shard, h: Handle)
    requires Valid(s) && h in s.entries && (s.entries[h].refs >= 2 || !s.entries[h].inIndex)
    ensures Valid(Unref(s, h))
  {
    var e := s.entries[h];
    if e.refs <= 1 {
      FreedValid(s, h);
    } else {
      var r := Unref(s, h);
      AliveUpdate(s, h, e.(refs := e.refs - 1));
      assert Charges(r.order, r.entries) == Charges(s.order, s.entries) by {
        ChargesFrame(s.order, r.entries, s.entries);
      }
    }
  }

  /** Freeing an entry that is out of the index keeps the shard valid. */
  lemma FreedValid(s: Shard, h: Handle)
    requires Valid(s) && h in s.entries && !s.entries[h].inIndex
    ensures Valid(s.(entries := s.entries - {h}, evicted := s.evicted + [Evicted(s.entries[h].key, s.entries[h].value)]))
  {
    var r := s.(entries := s.entries - {h}, evicted := s.evicted + [Evicted(s.entries[h].key, s.entries[h].value)]);
    assert forall j :: 0 <= j < |s.order| ==> s.order[j] != h;
    assert Charges(r.order, r.entries) == Charges(s.order, s.entries) by {
      ChargesFrame(s.order, r.entries, s.entries);
    }
  }

  lemma LinkIndex(s: Shard, h: Handle)
    requires Valid(s) && h in s.entries && !s.entries[h].inIndex && s.entries[h].key !in s.index
    ensures IndexSound(Link(s, h)) && FlagSound(Link(s, h))
  {
    var e := s.entries[h];
    var r := Link(s, h);
    forall k | k in r.index
      ensures IndexedAt(r, k) && r.index[k] in r.order
    {
      if k != e.key {
        assert s.index[k] != h;
        assert s.index[k] in s.order;
      }
    }
    forall g | g in r.entries && r.entries[g].inIndex
      ensures r.entries[g].key in r.index && r.index[r.entries[g].key] == g
    {
      if g != h {
        assert s.entries[g].key != e.key;
      }
    }
  }

  lemma LinkOrder(s: Shard, h: Handle)
    requires Valid(s) && h in s.entries && !s.entries[h].inIndex
    ensures OrderSound(Link(s, h))
    ensures h !in s.order
  {
    var r := Link(s, h);
    forall j | 0 <= j < |r.order|
      ensures r.order[j] in r.entries && r.entries[r.order[j]].inIndex
    {
      if j < |s.order| {
        assert r.order[j] == s.order[j];
      }
    }
    forall j1, j2 | 0 <= j1 < j2 < |r.order|
      ensures r.order[j1] != r.order[j2]
    {
      assert r.order[j1] == s.order[j1];
    }
  }

  lemma LinkUsage(s: Shard, h: Handle)
    requires Valid(s) && h in s.entries && h !in s.order
    ensures Link(s, h).usage == Charges(Link(s, h).order, Link(s, h).entries)
  {
    var r := Link(s, h);
    assert Charges(r.order, r.entries) == Charges(s.order, r.entries) + s.entries[h].charge by {
      assert r.order[..|r.order| - 1] == s.order;
    }
    assert Charges(s.order, r.entries) == Charges(s.order, s.entries) by {
      ChargesFrame(s.order, r.entries, s.entries);
    }
  }

  /** Changing an entry other than by dropping its last reference keeps every entry alive. */
  lemma AliveUpdate(s: Shard, h: Handle, e: Entry)
    requires EntriesAlive(s) && h in s.entries && e.refs >= 1
    ensures EntriesAlive(s.(entries := s.entries[h := e]))
  {
  }

  lemma LinkValid(s: Shard, h: Handle)
    requires Valid(s) && h in s.entries && !s.entries[h].inIndex && s.entries[h].key !in s.index
    ensures Valid(Link(s, h))
  {
    var e := s.entries[h];
    AliveUpdate(s, h, e.(refs := e.refs + 1, inIndex := true));
    LinkIndex(s, h);
    LinkOrder(s, h);
    LinkUsage(s, h);
  }

  // ---------------------------------------------------------------------------
  // Operations

  /** Allocate: a pending entry for key with one reference, the caller's, not yet indexed. */
  function Allocate(s: Shard, key: Key, charge: nat): (r: (Shard, Handle))
    requires Valid(s)
    ensures Valid(r.0)
    ensures r.1 !in s.entries && r.1 in r.0.entries
    ensures r.0.entries[r.1] == Entry(key, 0, charge, 1, false)
    ensures r.0.entries == s.entries[r.1 := Entry(key, 0, charge, 1, false)]
    ensures r.0.index == s.index && r.0.order == s.order && r.0.evicted == s.evicted
  {
    var h := s.next;
    var r := s.(entries := s.entries[h := Entry(key, 0, charge, 1, false)], next := s.next + 1);
    assert Charges(r.order, r.entries) == Charges(s.order, s.entries) by {
      assert forall j :: 0 <= j < |s.order| ==> s.order[j] != h;
      ChargesFrame(s.order, r.entries, s.entries);
    }
    (r, h)
  }

  /** Filling a pending entry's value through MutableValue. */
  function SetValue(s: Shard, h: Handle, v: Value): (r: Shard)
    requires Valid(s) && h in s.entries && !s.entries[h].inIndex
    ensures Valid(r)
    ensures r.entries == s.entries[h := s.entries[h].(value := v)]
  {
    var r := s.(entries := s.entries[h := s.entries[h].(value := v)]);
    AliveUpdate(s, h, s.entries[h].(value := v));
    assert Charges(r.order, r.entries) == Charges(s.order, s.entries) by {
      ChargesFrame(s.order, r.entries, s.entries);
    }
    r
  }

  /**
    Erase: takes k's entry out of the index and the residency list and drops the
    index's reference; an absent key changes nothing.
  */
  function Erase(s: Shard, k: Key): (r: Shard)
    requires Valid(s)
    ensures Valid(r)
    ensures r.index == s.index - {k}
    ensures k !in s.index ==> r == s
    ensures k in s.index ==> r.order == RemoveAt(s.order, IndexOf(s.order, s.index[k]))
  {
    if k !in s.index then s
    else
      var h := s.index[k];
      var i := IndexOf(s.order, h);
      DetachedValid(s, i);
      UnrefValid(Detached(s, i), h);
      Unref(Detached(s, i), h)
  }

  /** Erase leaves every other entry, the settings and the rest of the usage alone. */
  lemma EraseFrame(s: Shard, k: Key)
    requires Valid(s)
    ensures forall g :: g in s.entries && (k !in s.index || g != s.index[k]) ==>
              g in Erase(s, k).entries && Erase(s, k).entries[g] == s.entries[g]
    ensures Erase(s, k).policy == s.policy && Erase(s, k).capacity == s.capacity && Erase(s, k).next == s.next
    ensures Erase(s, k).usage == s.usage - (if k in s.index then s.entries[s.index[k]].charge else 0)
  {
    if k in s.index {
      var h := s.index[k];
      var i := IndexOf(s.order, h);
      assert Erase(s, k) == Unref(Detached(s, i), h);
    }
  }

  /**
    The erased entry fires its eviction callback at once when only the index held
    it; a pinned one stays alive, out of the index, without a callback.
  */
  lemma EraseCallback(s: Shard, k: Key)
    requires Valid(s) && k in s.index
    ensures s.entries[s.index[k]].refs == 1 ==>
              s.index[k] !in Erase(s, k).entries &&
              Erase(s, k).evicted == s.evicted + [Evicted(k, s.entries[s.index[k]].value)]
    ensures s.entries[s.index[k]].refs >= 2 ==>
              Erase(s, k).evicted == s.evicted && s.index[k] in Erase(s, k).entries &&
              Erase(s, k).entries[s.index[k]] ==
                s.entries[s.index[k]].(refs := s.entries[s.index[k]].refs - 1, inIndex := false)
  {
  }

  /** Erase only appends to the callback log. */
  lemma EraseLog(s: Shard, k: Key)
    requires Valid(s)
    ensures s.evicted <= Erase(s, k).evicted
  {
    if k in s.index {
      EraseCallback(s, k);
    }
  }

  /**
    The eviction loop that ends an insert: while the usage exceeds the capacity,
    the entry at the head of the residency list leaves the index.
  */
  function Evict(s: Shard): (r: Shard)
    requires Valid(s)
    ensures Valid(r)
    ensures r.usage <= r.capacity
    decreases |s.order|
  {
    if s.usage <= s.capacity || |s.order| == 0 then s
    else Evict(Erase(s, s.entries[s.order[0]].key))
  }

  /** Erasing the key at the head of the residency list drops the head. */
  lemma EraseHead(s: Shard)
    requires Valid(s) && |s.order| > 0
    ensures Erase(s, s.entries[s.order[0]].key).order == s.order[1..]
  {
  }

  /** Eviction takes entries from the head only: what stays is a suffix of the residency list. */
  lemma {:induction false} EvictSuffix(s: Shard)
    requires Valid(s)
    ensures |Evict(s).order| <= |s.order| && Evict(s).order == s.order[|s.order| - |Evict(s).order|..]
    decreases |s.order|
  {
    if s.usage > s.capacity && |s.order| > 0 {
      var s1 := Erase(s, s.entries[s.order[0]].key);
      assert s1.order == s.order[1..];
      assert Evict(s) == Evict(s1);
      EvictSuffix(s1);
    }
  }

  /** Eviction only removes keys; the ones that stay keep their entries. */
  lemma {:induction false} EvictIndex(s: Shard, k: Key)
    requires Valid(s)
    ensures k in Evict(s).index ==> k in s.index && Evict(s).index[k] == s.index[k]
    ensures k in Evict(s).index ==> Evict(s).entries[s.index[k]] == s.entries[s.index[k]]
    decreases |s.order|
  {
    if s.usage > s.capacity && |s.order| > 0 {
      var k0 := s.entries[s.order[0]].key;
      var s1 := Erase(s, k0);
      assert Evict(s) == Evict(s1);
      EvictIndex(s1, k);
      EraseFrame(s, k0);
    }
  }

  /** Eviction leaves entries that are out of the index untouched. */
  lemma {:induction false} EvictUnindexed(s: Shard, g: Handle)
    requires Valid(s) && g in s.entries && !s.entries[g].inIndex
    ensures g in Evict(s).entries && Evict(s).entries[g] == s.entries[g]
    decreases |s.order|
  {
    if s.usage > s.capacity && |s.order| > 0 {
      var k := s.entries[s.order[0]].key;
      EraseFrame(s, k);
      EvictUnindexed(Erase(s, k), g);
    }
  }

  /** Erase keeps an entry that is pinned or out of the index alive and releasable. */
  lemma EraseReleasable(s: Shard, k: Key, g: Handle)
    requires Valid(s) && g in s.entries && (s.entries[g].refs >= 2 || !s.entries[g].inIndex)
    ensures g in Erase(s, k).entries
    ensures Erase(s, k).entries[g].key == s.entries[g].key && Erase(s, k).entries[g].value == s.entries[g].value
    ensures Erase(s, k).entries[g].refs >= 2 || !Erase(s, k).entries[g].inIndex
  {
    if k in s.index && g == s.index[k] {
      EraseCallback(s, k);
    } else {
      EraseFrame(s, k);
    }
  }

  /**
    An entry pinned by a handle (or already out of the index) outlives eviction,
    with its key and value, and can still be released.
  */
  lemma {:induction false} EvictPinned(s: Shard, g: Handle)
    requires Valid(s) && g in s.entries && (s.entries[g].refs >= 2 || !s.entries[g].inIndex)
    ensures g in Evict(s).entries
    ensures Evict(s).entries[g].key == s.entries[g].key && Evict(s).entries[g].value == s.entries[g].value
    ensures Evict(s).entries[g].refs >= 2 || !Evict(s).entries[g].inIndex
    decreases |s.order|
  {
    if s.usage > s.capacity && |s.order| > 0 {
      var k := s.entries[s.order[0]].key;
      var s1 := Erase(s, k);
      assert Evict(s) == Evict(s1);
      EraseReleasable(s, k, g);
      EvictPinned(s1, g);
    }
  }

  /** Eviction only appends to the callback log. */
  lemma {:induction false} EvictLog(s: Shard)
    requires Valid(s)
    ensures s.evicted <= Evict(s).evicted
    decreases |s.order|
  {
    if s.usage > s.capacity && |s.order| > 0 {
      var s1 := Erase(s, s.entries[s.order[0]].key);
      assert Evict(s) == Evict(s1);
      EraseLog(s, s.entries[s.order[0]].key);
      EvictLog(s1);
    }
  }

  /** Eviction keeps the shard's policy, capacity and allocation counter. */
  lemma {:induction false} EvictSettings(s: Shard)
    requires Valid(s)
    ensures Evict(s).policy == s.policy && Evict(s).capacity == s.capacity && Evict(s).next == s.next
    decreases |s.order|
  {
    if s.usage > s.capacity && |s.order| > 0 {
      EraseFrame(s, s.entries[s.order[0]].key);
      EvictSettings(Erase(s, s.entries[s.order[0]].key));
    }
  }

  /**
    Insert: indexes the pending entry h under its key at the newest end of the
    residency list, replacing (and releasing) an entry already under that key,
    then evicts from the head while the usage exceeds the capacity.
  */
  function Insert(s: Shard, h: Handle): (r: Shard)
    requires Valid(s) && h in s.entries && !s.entries[h].inIndex
    ensures Valid(r)
    ensures r.usage <= r.capacity
  {
    var e := s.entries[h];
    var s1 := Erase(s, e.key);
    LinkValid(s1, h);
    Evict(Link(s1, h))
  }

  /** In a list without duplicates the position of the element at i is i. */
  lemma {:induction false} IndexOfAt(hs: seq<Handle>, i: nat)
    requires NoDup(hs) && i < |hs|
    ensures IndexOf(hs, hs[i]) == i
  {
    if i > 0 {
      assert hs[0] != hs[i];
      assert NoDup(hs[1..]) by {
        forall a, b | 0 <= a < b < |hs[1..]| ensures hs[1..][a] != hs[1..][b] {
          assert hs[1..][a] == hs[a + 1] && hs[1..][b] == hs[b + 1];
        }
      }
      IndexOfAt(hs[1..], i - 1);
    }
  }

  /** Erasing the key of the entry at position i of the residency list removes exactly that position. */
  lemma EraseAt(s: Shard, i: nat)
    requires Valid(s) && i < |s.order|
    ensures s.entries[s.order[i]].key in s.index && s.index[s.entries[s.order[i]].key] == s.order[i]
    ensures Erase(s, s.entries[s.order[i]].key).order == RemoveAt(s.order, i)
  {
    IndexOfAt(s.order, i);
  }

  /** Takes one more reference to the entry h. */
  function Pin(s: Shard, h: Handle): Shard
    requires h in s.entries
  {
    s.(entries := s.entries[h := s.entries[h].(refs := s.entries[h].refs + 1)])
  }

  lemma PinValid(s: Shard, h: Handle)
    requires Valid(s) && h in s.entries
    ensures Valid(Pin(s, h))
  {
    var r := Pin(s, h);
    AliveUpdate(s, h, s.entries[h].(refs := s.entries[h].refs + 1));
    assert Charges(r.order, r.entries) == Charges(s.order, s.entries) by {
      ChargesFrame(s.order, r.entries, s.entries);
    }
  }

  /** The residency list with the entry at position i moved to the most recently used end. */
  function MoveToBack(hs: seq<Handle>, i: nat): (r: seq<Handle>)
    requires i < |hs|
    ensures |r| == |hs| && r[|r| - 1] == hs[i]
  {
    RemoveAt(hs, i) + [hs[i]]
  }

  lemma MoveToBackOrder(s: Shard, i: nat)
    requires Valid(s) && i < |s.order|
    ensures OrderSound(s.(order := MoveToBack(s.order, i)))
    ensures forall j :: 0 <= j < |s.order| ==> s.order[j] in MoveToBack(s.order, i)
  {
    var o := MoveToBack(s.order, i);
    var rest := RemoveAt(s.order, i);
    forall j | 0 <= j < |rest|
      ensures rest[j] != s.order[i]
    {
      if j < i { assert rest[j] == s.order[j]; } else { assert rest[j] == s.order[j + 1]; }
    }
    forall j1, j2 | 0 <= j1 < j2 < |o|
      ensures o[j1] != o[j2]
    {
      if j2 < |rest| {
        var m1 := if j1 < i then j1 else j1 + 1;
        var m2 := if j2 < i then j2 else j2 + 1;
        assert o[j1] == s.order[m1] && o[j2] == s.order[m2];
      }
    }
    forall j | 0 <= j < |o|
      ensures o[j] in s.entries && s.entries[o[j]].inIndex
    {
      if j < i { assert o[j] == s.order[j]; } else if j < |rest| { assert o[j] == s.order[j + 1]; }
    }
    forall p | 0 <= p < |s.order|
      ensures s.order[p] in o
    {
      if p < i { assert o[p] == s.order[p]; }
      else if p > i { assert o[p - 1] == s.order[p]; }
      else { assert o[|o| - 1] == s.order[p]; }
    }
  }

  lemma MoveToBackValid(s: Shard, i: nat)
    requires Valid(s) && i < |s.order|
    ensures Valid(s.(order := MoveToBack(s.order, i)))
  {
    var o := MoveToBack(s.order, i);
    MoveToBackOrder(s, i);
    assert forall k :: k in s.index ==> s.index[k] in o;
    assert Charges(o, s.entries) == Charges(s.order, s.entries) by {
      assert o[..|o| - 1] == RemoveAt(s.order, i);
      ChargesRemoveAt(s.order, i, s.entries);
    }
  }

  /**
    Lookup: a new handle to k's entry, if k is indexed; the LRU policy moves the
    entry to the most recently used end, FIFO leaves the order alone.
  */
  function Lookup(s: Shard, k: Key): (r: (Shard, Option<Handle>))
    requires Valid(s)
    ensures Valid(r.0)
    ensures r.1.Some? <==> k in s.index
    ensures k in s.index ==> r.1.value == s.index[k] && r.1.value in r.0.entries && r.0.entries[r.1.value].refs >= 2
  {
    if k !in s.index then (s, None)
    else
      var h := s.index[k];
      PinValid(s, h);
      var s1 := Pin(s, h);
      if s.policy == LRU then
        MoveToBackValid(s1, IndexOf(s1.order, h));
        (s1.(order := MoveToBack(s1.order, IndexOf(s1.order, h))), Some(h))
      else
        (s1, Some(h))
  }

  /** A lookup whose handle is released at once leaves the entries as they were. */
  lemma LookupRelease(s: Shard, k: Key)
    requires Valid(s) && k in s.index
    ensures Unref(Lookup(s, k).0, s.index[k]) ==
              if s.policy == LRU then s.(order := MoveToBack(s.order, IndexOf(s.order, s.index[k]))) else s
  {
    var h := s.index[k];
    PinUnref(s, h);
    if s.policy == LRU {
      UnrefOrder(Pin(s, h), h, MoveToBack(s.order, IndexOf(s.order, h)));
    }
  }

  /** Dropping the reference just taken gives the shard back. */
  lemma PinUnref(s: Shard, h: Handle)
    requires h in s.entries && s.entries[h].refs >= 1
    ensures Unref(Pin(s, h), h) == s
  {
    assert s.entries[h := s.entries[h]] == s.entries;
  }

  /** Dropping a reference that is not the last one does not touch the residency list. */
  lemma UnrefOrder(s: Shard, h: Handle, o: seq<Handle>)
    requires h in s.entries && s.entries[h].refs >= 2
    ensures Unref(s.(order := o), h) == Unref(s, h).(order := o)
  {
  }

  /**
    The test fixture's Lookup: looks k up, reads the value and releases the
    handle. Nothing changes but the recency order under LRU.
  */
  function LookupValue(s: Shard, k: Key): (r: (Shard, Option<Value>))
    requires Valid(s)
    ensures Valid(r.0)
    ensures r.1 == if k in s.index then Some(s.entries[s.index[k]].value) else None
    ensures r.0 == if k in s.index && s.policy == LRU
                   then s.(order := MoveToBack(s.order, IndexOf(s.order, s.index[k])))
                   else s
  {
    var (s1, oh) := Lookup(s, k);
    match oh
    case None => (s1, None)
    case Some(h) =>
      UnrefValid(s1, h);
      LookupRelease(s, k);
      (Unref(s1, h), Some(s1.entries[h].value))
  }

  /** The test fixture's Insert: Allocate, fill the value, Insert, release the handle. */
  function InsertValue(s: Shard, k: Key, v: Value, charge: nat): (r: Shard)
    requires Valid(s)
    ensures Valid(r)
    ensures r.usage <= r.capacity
  {
    var (s1, h) := Allocate(s, k, charge);
    var s2 := SetValue(s1, h, v);
    var s3 := Insert(s2, h);
    InsertKeeps(s2, h);
    UnrefValid(s3, h);
    Unref(s3, h)
  }

  /** Insert keeps the new entry alive, with the caller's reference on top of the index's. */
  lemma InsertKeeps(s: Shard, h: Handle)
    requires Valid(s) && h in s.entries && !s.entries[h].inIndex
    ensures h in Insert(s, h).entries
    ensures Insert(s, h).entries[h].key == s.entries[h].key && Insert(s, h).entries[h].value == s.entries[h].value
    ensures Insert(s, h).entries[h].refs >= 2 || !Insert(s, h).entries[h].inIndex
  {
    var e := s.entries[h];
    var s1 := Erase(s, e.key);
    assert h in s1.entries && s1.entries[h] == e by {
      EraseFrame(s, e.key);
    }
    LinkValid(s1, h);
    EvictPinned(Link(s1, h), h);
  }

  /** Insert is: erase the key's old entry, link the new one at the newest end, evict. */
  lemma InsertLinked(s: Shard, h: Handle)
    requires Valid(s) && h in s.entries && !s.entries[h].inIndex
    ensures Valid(Erase(s, s.entries[h].key))
    ensures h in Erase(s, s.entries[h].key).entries && Erase(s, s.entries[h].key).entries[h] == s.entries[h]
    ensures Valid(Link(Erase(s, s.entries[h].key), h))
    ensures Insert(s, h) == Evict(Link(Erase(s, s.entries[h].key), h))
  {
    EraseFrame(s, s.entries[h].key);
    LinkValid(Erase(s, s.entries[h].key), h);
  }

  /** One round of the eviction loop: the head leaves and the residency list shrinks. */
  lemma EvictStep(s: Shard)
    requires Valid(s) && s.usage > s.capacity && |s.order| > 0
    ensures Evict(s) == Evict(Erase(s, s.entries[s.order[0]].key))
    ensures |Erase(s, s.entries[s.order[0]].key).order| < |s.order|
  {
    EraseHead(s);
  }

  // ---------------------------------------------------------------------------
  // Invalidate

  /**
    The invalidation sweep from position kept of the residency list on, with
    kept entries found valid and count removed so far: before each entry the
    advance function decides whether to go on; an entry the validity function
    rejects is erased.
  */
  function InvalidateFrom(s: Shard, valid: (Key, Value) -> bool, advance: (nat, nat) -> bool,
                          kept: nat, count: nat): (r: (Shard, nat))
    requires Valid(s) && kept <= |s.order|
    ensures Valid(r.0)
    decreases |s.order| - kept
  {
    if kept == |s.order| || !advance(kept, count) then (s, count)
    else
      var e := s.entries[s.order[kept]];
      if valid(e.key, e.value) then InvalidateFrom(s, valid, advance, kept + 1, count)
      else
        EraseAt(s, kept);
        InvalidateFrom(Erase(s, e.key), valid, advance, kept, count + 1)
  }

  /** Invalidate: sweeps the whole shard and returns how many entries it removed. */
  function Invalidate(s: Shard, valid: (Key, Value) -> bool, advance: (nat, nat) -> bool): (r: (Shard, nat))
    requires Valid(s)
    ensures Valid(r.0)
  {
    InvalidateFrom(s, valid, advance, 0, 0)
  }

  /** Removing an element other than x moves x one place forward if it came after. */
  lemma IndexOfRemoveAt(hs: seq<Handle>, i: nat, x: Handle)
    requires NoDup(hs) && i < |hs| && x in hs && x != hs[i] && NoDup(RemoveAt(hs, i))
    ensures x in RemoveAt(hs, i)
    ensures IndexOf(RemoveAt(hs, i), x) == if IndexOf(hs, x) < i then IndexOf(hs, x) else IndexOf(hs, x) - 1
  {
    var p := IndexOf(hs, x);
    var q := if p < i then p else p - 1;
    assert RemoveAt(hs, i)[q] == x;
    IndexOfAt(RemoveAt(hs, i), q);
  }

  /**
    With an advance function that always goes on, a key survives the sweep from
    kept exactly when it sits before kept or its entry is valid; a surviving key
    keeps its entry.
  */
  lemma {:induction false} InvalidateKey(s: Shard, valid: (Key, Value) -> bool, advance: (nat, nat) -> bool,
                                         kept: nat, count: nat, k: Key)
    requires Valid(s) && kept <= |s.order|
    requires forall a, b :: advance(a, b)
    ensures k in InvalidateFrom(s, valid, advance, kept, count).0.index <==>
              k in s.index && (IndexOf(s.order, s.index[k]) < kept || valid(k, s.entries[s.index[k]].value))
    ensures k in InvalidateFrom(s, valid, advance, kept, count).0.index ==>
              InvalidateFrom(s, valid, advance, kept, count).0.index[k] == s.index[k] &&
              InvalidateFrom(s, valid, advance, kept, count).0.entries[s.index[k]] == s.entries[s.index[k]]
    decreases |s.order| - kept, 1
  {
    if kept == |s.order| {
      if k in s.index {
        assert IndexOf(s.order, s.index[k]) < kept;
      }
    } else {
      var e := s.entries[s.order[kept]];
      if valid(e.key, e.value) {
        InvalidateKeyKept(s, valid, advance, kept, count, k);
      } else {
        InvalidateKeyErased(s, valid, advance, kept, count, k);
      }
    }
  }

  /** InvalidateKey for a step that keeps the entry at kept. */
  lemma {:induction false} InvalidateKeyKept(s: Shard, valid: (Key, Value) -> bool, advance: (nat, nat) -> bool,
                                             kept: nat, count: nat, k: Key)
    requires Valid(s) && kept < |s.order|
    requires forall a, b :: advance(a, b)
    requires valid(s.entries[s.order[kept]].key, s.entries[s.order[kept]].value)
    ensures k in InvalidateFrom(s, valid, advance, kept, count).0.index <==>
              k in s.index && (IndexOf(s.order, s.index[k]) < kept || valid(k, s.entries[s.index[k]].value))
    ensures k in InvalidateFrom(s, valid, advance, kept, count).0.index ==>
              InvalidateFrom(s, valid, advance, kept, count).0.index[k] == s.index[k] &&
              InvalidateFrom(s, valid, advance, kept, count).0.entries[s.index[k]] == s.entries[s.index[k]]
    decreases |s.order| - kept, 0
  {
    assert advance(kept, count);
    assert InvalidateFrom(s, valid, advance, kept, count) == InvalidateFrom(s, valid, advance, kept + 1, count);
    InvalidateKey(s, valid, advance, kept + 1, count, k);
    if k in s.index && IndexOf(s.order, s.index[k]) == kept {
      assert s.order[kept] == s.index[k];
    }
  }

  /** InvalidateKey for a step that erases the entry at kept. */
  lemma {:induction false} InvalidateKeyErased(s: Shard, valid: (Key, Value) -> bool, advance: (nat, nat) -> bool,
                                               kept: nat, count: nat, k: Key)
    requires Valid(s) && kept < |s.order|
    requires forall a, b :: advance(a, b)
    requires !valid(s.entries[s.order[kept]].key, s.entries[s.order[kept]].value)
    ensures k in InvalidateFrom(s, valid, advance, kept, count).0.index <==>
              k in s.index && (IndexOf(s.order, s.index[k]) < kept || valid(k, s.entries[s.index[k]].value))
    ensures k in InvalidateFrom(s, valid, advance, kept, count).0.index ==>
              InvalidateFrom(s, valid, advance, kept, count).0.index[k] == s.index[k] &&
              InvalidateFrom(s, valid, advance, kept, count).0.entries[s.index[k]] == s.entries[s.index[k]]
    decreases |s.order| - kept, 0
  {
    var key := s.entries[s.order[kept]].key;
    var s1 := Erase(s, key);
    EraseAt(s, kept);
    assert advance(kept, count);
    assert InvalidateFrom(s, valid, advance, kept, count) == InvalidateFrom(s1, valid, advance, kept, count + 1);
    InvalidateKey(s1, valid, advance, kept, count + 1, k);
    if k in s.index && k != key {
      EraseFrame(s, key);
      IndexOfRemoveAt(s.order, kept, s.index[k]);
    }
  }

  /** The sweep's count grows by exactly the number of entries it takes off the residency list. */
  lemma {:induction false} InvalidateCount(s: Shard, valid: (Key, Value) -> bool, advance: (nat, nat) -> bool,
                                           kept: nat, count: nat)
    requires Valid(s) && kept <= |s.order|
    ensures |InvalidateFrom(s, valid, advance, kept, count).0.order| <= |s.order|
    ensures InvalidateFrom(s, valid, advance, kept, count).1 ==
              count + |s.order| - |InvalidateFrom(s, valid, advance, kept, count).0.order|
    decreases |s.order| - kept, 1
  {
    if kept < |s.order| && advance(kept, count) {
      var e := s.entries[s.order[kept]];
      if valid(e.key, e.value) {
        InvalidateCount(s, valid, advance, kept + 1, count);
      } else {
        InvalidateCountErased(s, valid, advance, kept, count);
      }
    }
  }

  /** InvalidateCount for a step that erases the entry at kept. */
  lemma {:induction false} InvalidateCountErased(s: Shard, valid: (Key, Value) -> bool, advance: (nat, nat) -> bool,
                                                 kept: nat, count: nat)
    requires Valid(s) && kept < |s.order| && advance(kept, count)
    requires !valid(s.entries[s.order[kept]].key, s.entries[s.order[kept]].value)
    ensures |InvalidateFrom(s, valid, advance, kept, count).0.order| <= |s.order|
    ensures InvalidateFrom(s, valid, advance, kept, count).1 ==
              count + |s.order| - |InvalidateFrom(s, valid, advance, kept, count).0.order|
    decreases |s.order| - kept, 0
  {
    var s1 := Erase(s, s.entries[s.order[kept]].key);
    assert |s1.order| == |s.order| - 1 by {
      EraseAt(s, kept);
    }
    var r := InvalidateFrom(s1, valid, advance, kept, count + 1);
    assert InvalidateFrom(s, valid, advance, kept, count) == r;
    InvalidateCount(s1, valid, advance, kept, count + 1);
  }
}
