/**
 * `CardinalityEstimationCache`: cardinalities and estimation timeouts, stored per join graph, with
 * the hit, miss and per-entry request counters the optimizer reports.
 *
 * Keys stand for join graphs that are already normalised (the predicate reordering of
 * `_normalize` is not part of this model). Cardinalities are the stored numbers as they are, and
 * timeouts are counts of seconds.
 */
module CardinalityEstimation {
  import opened Wrappers

  /** An `Entry`: the timeout, the cardinality, and how often `get` asked for it. */
  datatype Entry = Entry(timeout: Option<int>, cardinality: Option<real>, requestCount: nat)

  /** The value-initialised entry `_cache[key]` inserts for a key it has not seen. */
  const EmptyEntry := Entry(None, None, 0)

  /** The observable state of a cache: the entries and the two global counters. */
  datatype CacheState<K> = CacheState(entries: map<K, Entry>, hitCount: nat, missCount: nat)

  /** The entry of `k`, as `_cache[k]` reads it. */
  function Lookup<K>(s: CacheState<K>, k: K): Entry
  {
    if k in s.entries then s.entries[k] else EmptyEntry
  }

  /** `s` with the entry of `k` replaced; counters untouched. */
  function SetEntry<K>(s: CacheState<K>, k: K, e: Entry): CacheState<K>
  {
    CacheState(s.entries[k := e], s.hitCount, s.missCount)
  }

  /** The state after `get_entry(k)`: an unseen key gets an empty entry. */
  function AfterGetEntry<K>(s: CacheState<K>, k: K): CacheState<K>
  {
    SetEntry(s, k, Lookup(s, k))
  }

  /** The state after `get(k)`: one more request of `k`, one more hit or one more miss. */
  function AfterGet<K>(s: CacheState<K>, k: K): CacheState<K>
  {
    var e := Lookup(s, k);
    var counted := Entry(e.timeout, e.cardinality, e.requestCount + 1);
    if e.cardinality.Some? then CacheState(s.entries[k := counted], s.hitCount + 1, s.missCount)
    else CacheState(s.entries[k := counted], s.hitCount, s.missCount + 1)
  }

  /** The state after `put(k, c)`. */
  function AfterPut<K>(s: CacheState<K>, k: K, c: real): CacheState<K>
  {
    var e := Lookup(s, k);
    SetEntry(s, k, Entry(e.timeout, Some(c), e.requestCount))
  }

  /** The state after `set_timeout(k, t)`. */
  function AfterSetTimeout<K>(s: CacheState<K>, k: K, t: Option<int>): CacheState<K>
  {
    var e := Lookup(s, k);
    SetEntry(s, k, Entry(t, e.cardinality, e.requestCount))
  }

  /** The keys `distinct_hit_count` counts: a cardinality is stored and it was requested. */
  function HitKeys<K>(s: CacheState<K>): set<K>
  {
    set k | k in s.entries && s.entries[k].cardinality.Some? && s.entries[k].requestCount > 0
  }

  /** The keys `distinct_miss_count` counts: no cardinality is stored and it was requested. */
  function MissKeys<K>(s: CacheState<K>): set<K>
  {
    set k | k in s.entries && s.entries[k].cardinality.None? && s.entries[k].requestCount > 0
  }

  /** The entries after `reset_distinct_hit_miss_counts`. */
  function ResetRequests<K>(entries: map<K, Entry>): map<K, Entry>
  {
    map k | k in entries :: Entry(entries[k].timeout, entries[k].cardinality, 0)
  }

  // --- What the operations promise ---

  /**
   * `get` counts one request of `k` and exactly one of a hit or a miss, according to whether a
   * cardinality is stored, and changes no other entry.
   */
  lemma GetCountsOneRequest<K>(s: CacheState<K>, k: K)
    ensures Lookup(AfterGet(s, k), k).requestCount == Lookup(s, k).requestCount + 1
    ensures Lookup(s, k).cardinality.Some? ==> AfterGet(s, k).hitCount == s.hitCount + 1 && AfterGet(s, k).missCount == s.missCount
    ensures Lookup(s, k).cardinality.None? ==> AfterGet(s, k).missCount == s.missCount + 1 && AfterGet(s, k).hitCount == s.hitCount
    ensures AfterGet(s, k).hitCount + AfterGet(s, k).missCount == s.hitCount + s.missCount + 1
    ensures forall j :: j != k ==> Lookup(AfterGet(s, k), j) == Lookup(s, j)
    ensures Lookup(AfterGet(s, k), k).cardinality == Lookup(s, k).cardinality
  {
  }

  /**
   * `get`, `get_timeout` and `set_timeout` insert an entry for an unseen key, so the size grows by
   * one exactly then.
   */
  lemma AccessGrowsSize<K>(s: CacheState<K>, k: K, t: Option<int>)
    ensures |AfterGetEntry(s, k).entries| == if k in s.entries then |s.entries| else |s.entries| + 1
    ensures |AfterGet(s, k).entries| == |AfterGetEntry(s, k).entries|
    ensures |AfterSetTimeout(s, k, t).entries| == |AfterGetEntry(s, k).entries|
    ensures AfterGetEntry(s, k).entries.Keys == s.entries.Keys + {k}
  {
  }

  /** After `put(k, c)`, `get(k)` returns `c`; `put` changes no counter and no other entry. */
  lemma PutThenGet<K>(s: CacheState<K>, k: K, c: real)
    ensures Lookup(AfterPut(s, k, c), k).cardinality == Some(c)
    ensures AfterPut(s, k, c).hitCount == s.hitCount && AfterPut(s, k, c).missCount == s.missCount
    ensures Lookup(AfterPut(s, k, c), k).requestCount == Lookup(s, k).requestCount
    ensures forall j :: j != k ==> Lookup(AfterPut(s, k, c), j) == Lookup(s, j)
  {
  }

  /** A timeout set is read back by `get_timeout`, and a timeout alone is no cardinality. */
  lemma SetTimeoutThenGetTimeout<K>(s: CacheState<K>, k: K, t: Option<int>)
    ensures Lookup(AfterSetTimeout(s, k, t), k).timeout == t
    ensures Lookup(AfterSetTimeout(s, k, t), k).cardinality == Lookup(s, k).cardinality
    ensures forall j :: j != k ==> Lookup(AfterSetTimeout(s, k, t), j) == Lookup(s, j)
  {
  }

  /**
   * The distinct hits and the distinct misses are disjoint sets of requested keys, so together
   * they are at most `distinct_request_count`, the number of entries.
   */
  lemma DistinctCountsBounded<K>(s: CacheState<K>)
    ensures HitKeys(s) * MissKeys(s) == {}
    ensures HitKeys(s) + MissKeys(s) == set k | k in s.entries && s.entries[k].requestCount > 0
    ensures |HitKeys(s)| + |MissKeys(s)| <= |s.entries|
  {
    var requested := HitKeys(s) + MissKeys(s);
    assert |requested| == |HitKeys(s)| + |MissKeys(s)|;
    SubsetSmaller(requested, s.entries.Keys);
  }

  /** A subset has at most as many elements. */
  lemma {:induction false} SubsetSmaller<T>(a: set<T>, b: set<T>)
    requires a <= b
    ensures |a| <= |b|
    decreases |a|
  {
    if a != {} {
      var x :| x in a;
      SubsetSmaller(a - {x}, b - {x});
    }
  }

  /** A key `get` asked for is afterwards a distinct hit or a distinct miss, as the lookup went. */
  lemma GetIsCountedDistinct<K>(s: CacheState<K>, k: K)
    ensures Lookup(s, k).cardinality.Some? ==> k in HitKeys(AfterGet(s, k))
    ensures Lookup(s, k).cardinality.None? ==> k in MissKeys(AfterGet(s, k))
  {
  }

  /**
   * `reset_distinct_hit_miss_counts` zeroes the request counts only: afterwards nothing is a
   * distinct hit or miss, while keys, cardinalities and timeouts stay.
   */
  lemma ResetForgetsRequests<K>(s: CacheState<K>)
    ensures ResetRequests(s.entries).Keys == s.entries.Keys
    ensures forall k :: k in s.entries ==> ResetRequests(s.entries)[k].cardinality == s.entries[k].cardinality && ResetRequests(s.entries)[k].timeout == s.entries[k].timeout
    ensures HitKeys(CacheState(ResetRequests(s.entries), s.hitCount, s.missCount)) == {}
    ensures MissKeys(CacheState(ResetRequests(s.entries), s.hitCount, s.missCount)) == {}
  {
    var r := CacheState(ResetRequests(s.entries), s.hitCount, s.missCount);
    assert forall k :: k in r.entries ==> r.entries[k].requestCount == 0;
  }

  /** The cache object: the entry map, the two counters and whether a log is attached. */
  class Cache<K(==)> {
    var entries: map<K, Entry>
    var hitCount: nat
    var missCount: nat
    var logAttached: bool

    /** The observable state. */
    function State(): CacheState<K>
      reads this
    {
      CacheState(entries, hitCount, missCount)
    }

    constructor ()
      ensures State() == CacheState(map[], 0, 0) && !logAttached
    {
      entries := map[];
      hitCount := 0;
      missCount := 0;
      logAttached := false;
    }

    /** `get_entry`: the entry of `k`, inserted empty when `k` is new. */
    method GetEntry(k: K) returns (e: Entry)
      modifies this
      ensures e == Lookup(old(State()), k)
      ensures State() == AfterGetEntry(old(State()), k) && logAttached == old(logAttached)
    {
      if k !in entries {
        entries := entries[k := EmptyEntry];
      }
      e := entries[k];
    }

    /** `get`: the stored cardinality on a hit, none on a miss; counts the request. */
    method Get(k: K) returns (r: Option<real>)
      modifies this
      ensures r == Lookup(old(State()), k).cardinality
      ensures State() == AfterGet(old(State()), k) && logAttached == old(logAttached)
    {
      var e := GetEntry(k);
      entries := entries[k := Entry(e.timeout, e.cardinality, e.requestCount + 1)];
      if e.cardinality.Some? {
        hitCount := hitCount + 1;
        r := e.cardinality;
      } else {
        missCount := missCount + 1;
        r := None;
      }
    }

    /** `put`: stores the cardinality of `k`. */
    method Put(k: K, c: real)
      modifies this
      ensures State() == AfterPut(old(State()), k, c) && logAttached == old(logAttached)
    {
      var e := Lookup(State(), k);
      entries := entries[k := Entry(e.timeout, Some(c), e.requestCount)];
    }

    /** `get_timeout`. */
    method GetTimeout(k: K) returns (t: Option<int>)
      modifies this
      ensures t == Lookup(old(State()), k).timeout
      ensures State() == AfterGetEntry(old(State()), k) && logAttached == old(logAttached)
    {
      var e := GetEntry(k);
      t := e.timeout;
    }

    /** `set_timeout`. */
    method SetTimeout(k: K, t: Option<int>)
      modifies this
      ensures State() == AfterSetTimeout(old(State()), k, t) && logAttached == old(logAttached)
    {
      var e := GetEntry(k);
      entries := entries[k := Entry(t, e.cardinality, e.requestCount)];
    }

    /** `size` and `distinct_request_count`: the number of entries. */
    function Size(): (n: nat)
      reads this
      ensures n == |State().entries|
    {
      |entries|
    }

    /** `distinct_hit_count`. */
    function DistinctHitCount(): (n: nat)
      reads this
      ensures n == |HitKeys(State())|
    {
      |set k | k in entries && entries[k].cardinality.Some? && entries[k].requestCount > 0|
    }

    /** `distinct_miss_count`. */
    function DistinctMissCount(): (n: nat)
      reads this
      ensures n == |MissKeys(State())|
    {
      |set k | k in entries && entries[k].cardinality.None? && entries[k].requestCount > 0|
    }

    /** `reset_distinct_hit_miss_counts`: every request count set to zero, one entry at a time. */
    method ResetDistinctHitMissCounts()
      modifies this
      ensures entries == ResetRequests(old(entries))
      ensures hitCount == old(hitCount) && missCount == old(missCount) && logAttached == old(logAttached)
    {
      var pending := entries.Keys;
      while pending != {}
        invariant pending <= entries.Keys && entries.Keys == old(entries).Keys
        invariant forall k :: k in entries && k in pending ==> entries[k] == old(entries)[k]
        invariant forall k :: k in entries && k !in pending ==> entries[k] == ResetRequests(old(entries))[k]
        invariant hitCount == old(hitCount) && missCount == old(missCount) && logAttached == old(logAttached)
        decreases pending
      {
        var k :| k in pending;
        entries := entries[k := Entry(entries[k].timeout, entries[k].cardinality, 0)];
        pending := pending - {k};
      }
    }

    /** `clear`: no entries, both counters zero, the log detached. */
    method Clear()
      modifies this
      ensures State() == CacheState(map[], 0, 0) && !logAttached
    {
      entries := map[];
      hitCount := 0;
      missCount := 0;
      logAttached := false;
    }

    /** `set_log`: whether the operations write a log line. */
    method SetLog(attached: bool)
      modifies this
      ensures logAttached == attached && State() == old(State())
    {
      logAttached := attached;
    }
  }
}
