/**
 * The chunk cache: a bounded least-recently-used map from (file, position) to
 * either the raw bytes of a chunk or the node decoded from them. Chunks longer
 * than the configured maximum are never cached, so the bytes held stay within
 * capacity times that maximum.
 *
 * `Lru` and its functions are the behaviour the cache relies on from its LRU
 * map; `ChunkCache` is the object the rest of the engine shares.
 */
module Cache {
  import opened Errors
  import opened Bytes

  datatype ChunkKey = ChunkKey(position: U64, filePath: string)

  /** A cached chunk: its bytes, or the value decoded from them (identified here by a token). */
  datatype CacheEntry = Buffer(bytes: seq<Byte>) | Decoded(token: nat)

  /** Keys from least to most recently used, and what each maps to. */
  datatype Lru = Lru(order: seq<ChunkKey>, entries: map<ChunkKey, CacheEntry>)

  predicate Distinct(s: seq<ChunkKey>) {
    forall i, j :: 0 <= i < j < |s| ==> s[i] != s[j]
  }

  /** The LRU map holds at most `capacity` keys, each once, with the recency order covering exactly the stored keys. */
  ghost predicate LruValid(c: Lru, capacity: nat) {
    && |c.order| <= capacity
    && Distinct(c.order)
    && (forall k :: k in c.order <==> k in c.entries)
  }

  /** `s` with `k` taken out, the rest in the same order. */
  function Without(s: seq<ChunkKey>, k: ChunkKey): (r: seq<ChunkKey>)
    ensures forall x :: x in r <==> x in s && x != k
    ensures Distinct(s) ==> Distinct(r)
    ensures Distinct(s) && k in s ==> |r| == |s| - 1
    ensures k !in s ==> r == s
  {
    if s == [] then []
    else if s[0] == k then Without(s[1..], k)
    else
      var tail := Without(s[1..], k);
      assert forall x :: x in [s[0]] + tail ==> x == s[0] || x in tail;
      DistinctUncons(s);
      DistinctCons(s[0], tail);
      assert s == [s[0]] + s[1..];
      [s[0]] + tail
  }

  /** The tail of a distinct sequence is distinct and does not hold its head. */
  lemma DistinctUncons(s: seq<ChunkKey>)
    requires s != []
    ensures Distinct(s) ==> Distinct(s[1..]) && s[0] !in s[1..]
  {
  }

  /** A key put in front of a distinct sequence that does not hold it keeps it distinct. */
  lemma DistinctCons(h: ChunkKey, t: seq<ChunkKey>)
    ensures Distinct(t) && h !in t ==> Distinct([h] + t)
  {
  }

  /** What is cached for `k`, leaving recency alone (`peek`). */
  function Peek(c: Lru, k: ChunkKey): Option<CacheEntry> {
    if k in c.entries then Some(c.entries[k]) else None
  }

  /**
   * `put`: stores `v` for `k` as the most recently used entry. A key already
   * present is updated in place; a new key in a full map first evicts the least
   * recently used one. A map of capacity zero stores nothing.
   */
  function Put(c: Lru, capacity: nat, k: ChunkKey, v: CacheEntry): Lru
  {
    if k in c.entries then Lru(Without(c.order, k) + [k], c.entries[k := v])
    else if capacity == 0 then c
    else if |c.order| >= capacity && |c.order| > 0 then Lru(c.order[1..] + [k], (c.entries - {c.order[0]})[k := v])
    else Lru(c.order + [k], c.entries[k := v])
  }

  /** `get`: what is cached for `k`, which becomes the most recently used key. */
  function Touch(c: Lru, k: ChunkKey): (Lru, Option<CacheEntry>)
  {
    if k in c.entries then (Lru(Without(c.order, k) + [k], c.entries), Some(c.entries[k]))
    else (c, None)
  }

  /** `peek_mut` followed by an assignment: replaces what is cached for `k`, if anything, without touching recency. */
  function PeekReplace(c: Lru, k: ChunkKey, v: CacheEntry): Lru
  {
    if k in c.entries then Lru(c.order, c.entries[k := v]) else c
  }

  lemma PutValid(c: Lru, capacity: nat, k: ChunkKey, v: CacheEntry)
    requires LruValid(c, capacity)
    ensures LruValid(Put(c, capacity, k, v), capacity)
  {
    var r := Put(c, capacity, k, v);
    if k !in c.entries && capacity > 0 && |c.order| >= capacity {
      assert c.order == [c.order[0]] + c.order[1..];
      assert forall x :: x in c.order[1..] ==> x != c.order[0];
    }
  }

  /** Right after `put`, `get` finds the value put (unless the map can hold nothing). */
  lemma GetAfterPut(c: Lru, capacity: nat, k: ChunkKey, v: CacheEntry)
    requires capacity > 0
    ensures Touch(Put(c, capacity, k, v), k).1 == Some(v)
    ensures Peek(Put(c, capacity, k, v), k) == Some(v)
  {
  }

  /** `put` makes the key the most recently used one. */
  lemma PutIsMostRecent(c: Lru, capacity: nat, k: ChunkKey, v: CacheEntry)
    requires capacity > 0
    ensures var r := Put(c, capacity, k, v); |r.order| > 0 && r.order[|r.order| - 1] == k
  {
  }

  /**
   * `put` changes nothing cached under other keys, except that adding a new key
   * to a full map drops the least recently used key, and only that one.
   */
  lemma {:induction false} PutKeepsOthers(c: Lru, capacity: nat, k: ChunkKey, v: CacheEntry, other: ChunkKey)
    requires LruValid(c, capacity) && other != k
    ensures var evicted := k !in c.entries && capacity > 0 && |c.order| == capacity;
      Peek(Put(c, capacity, k, v), other) == if evicted && other == c.order[0] then None else Peek(c, other)
  {
    if k !in c.entries && capacity > 0 && |c.order| == capacity {
      assert c.order[0] in c.entries;
    }
  }

  /** Adding a new key to a full map evicts exactly the least recently used key, and the map stays full. */
  lemma PutEvictsLeastRecent(c: Lru, capacity: nat, k: ChunkKey, v: CacheEntry)
    requires LruValid(c, capacity)
    requires k !in c.entries && capacity > 0 && |c.order| == capacity
    ensures var r := Put(c, capacity, k, v);
      && c.order[0] !in r.entries
      && r.entries.Keys == c.entries.Keys - {c.order[0]} + {k}
      && |r.order| == capacity
  {
    PutValid(c, capacity, k, v);
    var r := Put(c, capacity, k, v);
    assert c.order[0] in c.order;
    assert forall x :: x in c.order[1..] ==> x != c.order[0];
  }

  /** `get` returns what is cached and changes no entry, only the recency order. */
  lemma TouchKeepsEntries(c: Lru, capacity: nat, k: ChunkKey)
    requires LruValid(c, capacity)
    ensures Touch(c, k).1 == Peek(c, k)
    ensures Touch(c, k).0.entries == c.entries
    ensures LruValid(Touch(c, k).0, capacity)
    ensures k in c.entries ==> Touch(c, k).0.order[|Touch(c, k).0.order| - 1] == k
  {
  }

  lemma PeekReplaceValid(c: Lru, capacity: nat, k: ChunkKey, v: CacheEntry)
    requires LruValid(c, capacity)
    ensures LruValid(PeekReplace(c, k, v), capacity)
    ensures PeekReplace(c, k, v).order == c.order
    ensures Peek(PeekReplace(c, k, v), k) == if k in c.entries then Some(v) else None
  {
  }

  /** Every cached buffer is at most `maxLength` bytes long. */
  predicate BuffersBounded(entries: map<ChunkKey, CacheEntry>, maxLength: nat) {
    forall k :: k in entries && entries[k].Buffer? ==> |entries[k].bytes| <= maxLength
  }

  /** The bytes held by the buffers cached under `keys`. */
  function Footprint(keys: seq<ChunkKey>, entries: map<ChunkKey, CacheEntry>): nat
  {
    if keys == [] then 0
    else
      var k := keys[|keys| - 1];
      var held := if k in entries && entries[k].Buffer? then |entries[k].bytes| else 0;
      Footprint(keys[..|keys| - 1], entries) + held
  }

  lemma {:induction false} FootprintBound(keys: seq<ChunkKey>, entries: map<ChunkKey, CacheEntry>, maxLength: nat)
    requires BuffersBounded(entries, maxLength)
    ensures Footprint(keys, entries) <= |keys| * maxLength
  {
    if keys != [] {
      FootprintBound(keys[..|keys| - 1], entries, maxLength);
    }
  }

  /** `put` and the replacement of a buffer by its decoded value keep every cached buffer within the bound. */
  lemma PutKeepsBuffersBounded(c: Lru, capacity: nat, k: ChunkKey, v: CacheEntry, maxLength: nat)
    requires BuffersBounded(c.entries, maxLength)
    requires v.Buffer? ==> |v.bytes| <= maxLength
    ensures BuffersBounded(Put(c, capacity, k, v).entries, maxLength)
    ensures BuffersBounded(PeekReplace(c, k, v).entries, maxLength)
  {
  }

  class ChunkCache {
    /** Chunks longer than this are not cached. */
    const maxBlockLength: nat
    /** The most chunks held at once. */
    const capacity: nat
    var cache: Lru

    ghost predicate Valid()
      reads this
    {
      LruValid(cache, capacity) && BuffersBounded(cache.entries, maxBlockLength)
    }

    /** `ChunkCache::new`: an empty cache. */
    constructor (capacity: nat, maxChunkLength: nat)
      ensures Valid()
      ensures this.capacity == capacity && maxBlockLength == maxChunkLength
      ensures cache == Lru([], map[])
    {
      this.capacity := capacity;
      maxBlockLength := maxChunkLength;
      cache := Lru([], map[]);
    }

    /** `ChunkCache::insert`: caches the chunk's bytes, unless they are longer than the maximum. */
    method Insert(filePath: string, position: U64, buffer: seq<Byte>)
      requires Valid()
      modifies this
      ensures Valid()
      ensures cache == if |buffer| <= maxBlockLength
                       then Put(old(cache), capacity, ChunkKey(position, filePath), Buffer(buffer))
                       else old(cache)
    {
      if |buffer| <= maxBlockLength {
        PutValid(cache, capacity, ChunkKey(position, filePath), Buffer(buffer));
        PutKeepsBuffersBounded(cache, capacity, ChunkKey(position, filePath), Buffer(buffer), maxBlockLength);
        cache := Put(cache, capacity, ChunkKey(position, filePath), Buffer(buffer));
      }
    }

    /** `ChunkCache::replace_with_decoded`: swaps a cached chunk for its decoded value, only if the chunk is cached. */
    method ReplaceWithDecoded(filePath: string, position: U64, token: nat)
      requires Valid()
      modifies this
      ensures Valid()
      ensures cache == PeekReplace(old(cache), ChunkKey(position, filePath), Decoded(token))
    {
      var key := ChunkKey(position, filePath);
      if key in cache.entries {
        cache := Lru(cache.order, cache.entries[key := Decoded(token)]);
      }
    }

    /** `ChunkCache::get`: what is cached for the chunk, which becomes the most recently used. */
    method Get(filePath: string, position: U64) returns (r: Option<CacheEntry>)
      requires Valid()
      modifies this
      ensures Valid()
      ensures r == Peek(old(cache), ChunkKey(position, filePath))
      ensures cache == Touch(old(cache), ChunkKey(position, filePath)).0
    {
      var key := ChunkKey(position, filePath);
      TouchKeepsEntries(cache, capacity, key);
      var touched := Touch(cache, key);
      cache := touched.0;
      r := touched.1;
    }

    /** The promise of `ChunkCache::new`: the buffers held never total more than capacity times the maximum chunk length. */
    lemma MemoryBound()
      requires Valid()
      ensures Footprint(cache.order, cache.entries) <= capacity * maxBlockLength
    {
      FootprintBound(cache.order, cache.entries, maxBlockLength);
      assert |cache.order| * maxBlockLength <= capacity * maxBlockLength by {
        MultiplyMonotone(|cache.order|, capacity, maxBlockLength);
      }
    }
  }

  lemma MultiplyMonotone(a: nat, b: nat, m: nat)
    requires a <= b
    ensures a * m <= b * m
  {
  }
}
