/**
 The chunk cache of the data views: byte ranges of a backend store are read through aligned chunks of 64 KB
 that are kept for later reads, at most 256 of them. Reads through the cache are direct reads as long as no
 chunk was cached while the store was shorter.
 */
module ChunkCaches {
  type Bytes = seq<bv8>

  /** Divisors are written as the numeral 65536, so that dividing by them stays linear. */
  const CHUNK_SIZE := 65536

  const MAX_ENTRIES := 256

  datatype CacheEntry = CacheEntry(data: Bytes, lastAccess: int)

  type Cache = map<nat, CacheEntry>

  function Min(a: int, b: int): int {
    if a < b then a else b
  }

  function Align(offset: nat): (start: nat)
    ensures start <= offset < start + CHUNK_SIZE
  {
    offset / 65536 * 65536
  }

  /** What the backend returns for one chunk: as much as the store holds. */
  function Page(store: Bytes, start: nat): Bytes {
    if start >= |store| then [] else store[start..Min(start + CHUNK_SIZE, |store|)]
  }

  function ByteOf(data: Bytes, i: nat): bv8 {
    if i < |data| then data[i] else 0
  }

  /** A byte read directly; behind the end of the store there are zeros. */
  function DirectByte(store: Bytes, position: nat): bv8 {
    ByteOf(store, position)
  }

  function ChunkData(cache: Cache, store: Bytes, start: nat): Bytes {
    if start in cache then cache[start].data else Page(store, start)
  }

  /** A byte read through the cache. */
  function CachedByte(cache: Cache, store: Bytes, position: nat): bv8 {
    ByteOf(ChunkData(cache, store, Align(position)), position - Align(position))
  }

  ghost predicate Fresh(cache: Cache, store: Bytes) {
    forall start :: start in cache ==> start % 65536 == 0 && cache[start].data == Page(store, start)
  }

  /** A fresh cache cannot be told from direct reads. */
  lemma FreshReadsDirect(cache: Cache, store: Bytes, position: nat)
    requires Fresh(cache, store)
    ensures CachedByte(cache, store, position) == DirectByte(store, position)
  {
    PageByte(store, Align(position), position);
  }

  lemma PageByte(store: Bytes, start: nat, position: nat)
    requires start <= position < start + CHUNK_SIZE
    ensures ByteOf(Page(store, start), position - start) == ByteOf(store, position)
  {
  }

  /** A byte that a chunk cached over the shorter store shows as the longer store has it. */
  predicate IsStillRight(before: Bytes, store: Bytes, position: nat) {
    position < |before| || position >= |store| || store[position] == 0
  }

  /**
   A chunk cached when the store held only its first part: a byte of that chunk is read as direct reads have it
   exactly when it was there already, or is still behind the end, or happens to be zero.
   */
  lemma GrownStoreReadsIff(cache: Cache, before: Bytes, store: Bytes, position: nat)
    requires before <= store && Align(position) in cache
    requires cache[Align(position)].data == Page(before, Align(position))
    ensures CachedByte(cache, store, position) == DirectByte(store, position) <==> IsStillRight(before, store, position)
  {
  }

  /** The chunks that a range of bytes touches. */
  predicate Touched(offset: nat, length: nat, start: nat) {
    start % 65536 == 0 && start < offset + length && offset < start + CHUNK_SIZE && length > 0
  }

  /** Nothing has left the cache, and what came in are the touched chunks before `upTo`. */
  ghost predicate Collected(before: Cache, cache: Cache, store: Bytes, offset: nat, length: nat, upTo: nat) {
    && (forall k :: k in before ==> k in cache)
    && (forall k :: k in cache ==> k in before || (Touched(offset, length, k) && k < upTo))
    && (forall k :: k in cache ==> cache[k].data == ChunkData(before, store, k))
    && (forall k: nat :: Touched(offset, length, k) && k < upTo ==> k in cache)
  }

  /** The queries, in rising order, were for the touched chunks before `upTo` that were missing. */
  ghost predicate Queried(before: Cache, queries: seq<nat>, offset: nat, length: nat, upTo: nat) {
    && (forall k: nat :: k in queries <==> k !in before && Touched(offset, length, k) && k < upTo)
    && forall i, j :: 0 <= i < j < |queries| ==> queries[i] < queries[j]
  }

  /** The loop stands at a position, inside the chunk that it fetches next. */
  predicate At(position: nat, at: nat, start: nat) {
    at == position && start % 65536 == 0 && start <= at < start + CHUNK_SIZE
  }

  lemma AlignIs(position: nat, start: nat)
    requires start % 65536 == 0 && start <= position < start + CHUNK_SIZE
    ensures Align(position) == start
  {
  }

  lemma AlignedUpTo(k: nat, start: nat)
    requires start % 65536 == 0 && k % 65536 == 0
    ensures k < start + CHUNK_SIZE <==> k <= start
  {
  }

  /** The chunk has come in, if it was missing, and no data has changed. */
  ghost predicate Loaded(held: Cache, cache: Cache, store: Bytes, start: nat) {
    cache.Keys == held.Keys + {start} && forall k :: k in cache ==> cache[k].data == ChunkData(held, store, k)
  }

  lemma CollectedNext(before: Cache, held: Cache, cache: Cache, store: Bytes, offset: nat, length: nat, start: nat)
    requires Collected(before, held, store, offset, length, start) && Touched(offset, length, start)
    requires Loaded(held, cache, store, start)
    ensures Collected(before, cache, store, offset, length, start + CHUNK_SIZE)
  {
    forall k: nat | Touched(offset, length, k) && k < start + CHUNK_SIZE
      ensures k in cache
    {
      AlignedUpTo(k, start);
    }
  }

  lemma QueriedNext(before: Cache, held: Cache, store: Bytes, queries: seq<nat>, offset: nat, length: nat, start: nat)
    requires Collected(before, held, store, offset, length, start) && Touched(offset, length, start)
    requires Queried(before, queries, offset, length, start)
    ensures Queried(before, if start in held then queries else queries + [start], offset, length, start + CHUNK_SIZE)
  {
    var next := if start in held then queries else queries + [start];
    forall k: nat
      ensures k in next <==> k !in before && Touched(offset, length, k) && k < start + CHUNK_SIZE
    {
      if Touched(offset, length, k) {
        AlignedUpTo(k, start);
      }
    }
    assert forall i :: 0 <= i < |queries| ==> queries[i] in queries;
  }

  /** The first `done` bytes are in place and the others are still zero. */
  ghost predicate Copied(before: Cache, store: Bytes, offset: nat, result: Bytes, done: int) {
    && (forall p :: offset <= p < offset + |result| && p < offset + done ==>
                      result[p - offset] == CachedByte(before, store, p))
    && (forall i :: 0 <= i < |result| && done <= i ==> result[i] == 0)
  }

  /** `count` bytes of the slice lie at `to`, as far as the data goes, and nothing else has changed. */
  ghost predicate SliceCopied(data: Bytes, from: nat, count: nat, was: Bytes, now: Bytes, to: nat) {
    && |now| == |was|
    && forall i :: 0 <= i < |now| ==>
         now[i] == if to <= i < to + count && from + (i - to) < |data| then data[from + (i - to)] else was[i]
  }

  lemma CopiedNext(before: Cache, store: Bytes, offset: nat, was: Bytes, now: Bytes, done: nat, start: nat, data: Bytes,
                   from: nat, count: nat)
    requires Copied(before, store, offset, was, done) && start % 65536 == 0
    requires data == ChunkData(before, store, start) && start + from == offset + done && from + count <= CHUNK_SIZE
    requires SliceCopied(data, from, count, was, now, done)
    ensures Copied(before, store, offset, now, done + count)
  {
    forall p | offset <= p < offset + |now| && p < offset + done + count
      ensures now[p - offset] == CachedByte(before, store, p)
    {
      if offset + done <= p {
        SliceByte(data, from, count, was, now, done, p - offset);
        IsCachedByte(before, store, p, start, data, p - start, now[p - offset]);
      }
    }
  }

  lemma SliceByte(data: Bytes, from: nat, count: nat, was: Bytes, now: Bytes, to: nat, i: nat)
    requires SliceCopied(data, from, count, was, now, to) && to <= i < to + count && i < |now| && was[i] == 0
    ensures now[i] == ByteOf(data, from + (i - to))
  {
  }

  lemma IsCachedByte(cache: Cache, store: Bytes, position: nat, start: nat, data: Bytes, at: nat, b: bv8)
    requires start % 65536 == 0 && position == start + at && at < CHUNK_SIZE
    requires data == ChunkData(cache, store, start) && b == ByteOf(data, at)
    ensures b == CachedByte(cache, store, position)
  {
    AlignIs(position, start);
  }

  /** What the loop has reached: the bytes before a position, the chunks before a start, and their queries. */
  ghost predicate Gathered(before: Cache, cache: Cache, store: Bytes, queries: seq<nat>, result: Bytes, offset: nat,
                           length: nat, done: nat, start: nat)
  {
    && Copied(before, store, offset, result, done)
    && Collected(before, cache, store, offset, length, start)
    && Queried(before, queries, offset, length, start)
  }

  lemma GatheredNothing(cache: Cache, store: Bytes, result: Bytes, offset: nat, length: nat)
    requires forall i :: 0 <= i < |result| ==> result[i] == 0
    ensures Gathered(cache, cache, store, [], result, offset, length, 0, Align(offset))
  {
    forall k: nat | Touched(offset, length, k)
      ensures k >= Align(offset)
    {
      TouchedFrom(offset, length, k);
    }
  }

  lemma TouchedFrom(offset: nat, length: nat, k: nat)
    requires Touched(offset, length, k)
    ensures k >= Align(offset)
  {
  }

  lemma GatheredNext(before: Cache, held: Cache, cache: Cache, store: Bytes, queries: seq<nat>, was: Bytes, now: Bytes,
                     offset: nat, length: nat, done: nat, start: nat, from: nat, count: nat)
    requires Gathered(before, held, store, queries, was, offset, length, done, start)
    requires Touched(offset, length, start) && start + from == offset + done && from + count <= CHUNK_SIZE
    requires SliceCopied(ChunkData(held, store, start), from, count, was, now, done)
    requires Loaded(held, cache, store, start)
    ensures Gathered(before, cache, store, if start in held then queries else queries + [start], now, offset, length,
                     done + count, start + CHUNK_SIZE)
  {
    CollectedNext(before, held, cache, store, offset, length, start);
    QueriedNext(before, held, store, queries, offset, length, start);
    SameChunk(before, held, store, offset, length, start);
    CopiedNext(before, store, offset, was, now, done, start, ChunkData(held, store, start), from, count);
  }

  lemma SameChunk(before: Cache, held: Cache, store: Bytes, offset: nat, length: nat, start: nat)
    requires Collected(before, held, store, offset, length, start)
    ensures ChunkData(held, store, start) == ChunkData(before, store, start)
  {
  }

  lemma GatheredAll(before: Cache, cache: Cache, store: Bytes, queries: seq<nat>, result: Bytes, offset: nat,
                    length: nat, start: nat)
    requires Gathered(before, cache, store, queries, result, offset, length, length, start)
    requires length > 0 ==> offset + length <= start
    ensures Copied(before, store, offset, result, length)
    ensures Collected(before, cache, store, offset, length, offset + length)
    ensures Queried(before, queries, offset, length, offset + length)
  {
  }

  /** The loop is over, or its next chunk is touched and starts at or before the position. */
  predicate Stands(offset: nat, length: nat, done: nat, at: nat, start: nat) {
    && done <= length
    && if done < length then At(offset + done, at, start) && Touched(offset, length, start)
       else length > 0 ==> offset + length <= start
  }

  lemma StandsFirst(offset: nat, length: nat)
    ensures Stands(offset, length, 0, offset, Align(offset))
  {
  }

  lemma StandsNext(offset: nat, length: nat, done: nat, at: nat, start: nat, count: nat)
    requires done < length && Stands(offset, length, done, at, start)
    requires count == Min(length - done, CHUNK_SIZE - (at - start))
    ensures start <= at == offset + done && at + count <= start + CHUNK_SIZE && Touched(offset, length, start)
    ensures 0 < count <= length - done && Stands(offset, length, done + count, start + CHUNK_SIZE, start + CHUNK_SIZE)
  {
  }

  class ChunkCache {
    /** The readings of the wall clock, in the order in which they are taken. */
    const clock: nat -> int
    var ticks: nat
    var cache: Cache

    constructor (clock: nat -> int)
      ensures cache == map[] && this.clock == clock
    {
      this.clock := clock;
      ticks, cache := 0, map[];
    }

    method Clear()
      modifies this
      ensures cache == map[]
    {
      cache := map[];
    }

    /**
     One range, read through the cache from the store as it is now. Only chunks that were not cached are
     queried, each once, and what the cache holds afterwards is what it held before or has just been queried.
     */
    method Fetch(store: Bytes, offset: nat, length: nat) returns (result: array<bv8>, queries: seq<nat>)
      modifies this
      ensures fresh(result) && result.Length == length
      ensures forall p :: offset <= p < offset + length ==> result[p - offset] == CachedByte(old(cache), store, p)
      ensures |cache| <= MAX_ENTRIES
      ensures forall k :: k in cache ==> k in old(cache) || Touched(offset, length, k)
      ensures forall k: nat :: k in old(cache) || Touched(offset, length, k) ==> k in cache || |cache| == MAX_ENTRIES
      ensures forall k :: k in cache ==> cache[k].data == ChunkData(old(cache), store, k)
      ensures forall k :: k in queries <==> k !in old(cache) && Touched(offset, length, k)
      ensures forall i, j :: 0 <= i < j < |queries| ==> queries[i] < queries[j]
    {
      result := new bv8[length](_ => 0);
      queries := Gather(store, offset, length, result);
      Evict();
    }

    /** The loop of a fetch: chunk after chunk, each copied into its place. */
    method Gather(store: Bytes, offset: nat, length: nat, result: array<bv8>) returns (queries: seq<nat>)
      requires result.Length == length && forall i :: 0 <= i < length ==> result[i] == 0
      modifies this, result
      ensures Copied(old(cache), store, offset, result[..], length)
      ensures Collected(old(cache), cache, store, offset, length, offset + length)
      ensures Queried(old(cache), queries, offset, length, offset + length)
    {
      GatheredNothing(cache, store, result[..], offset, length);
      StandsFirst(offset, length);
      queries := GatherFrom(store, offset, Align(offset), result, cache);
    }

    /** From the chunk of the first byte on. */
    method GatherFrom(store: Bytes, offset: nat, start: nat, result: array<bv8>, ghost before: Cache)
      returns (queries: seq<nat>)
      requires Stands(offset, result.Length, 0, offset, start)
      requires Gathered(before, cache, store, [], result[..], offset, result.Length, 0, start)
      modifies this, result
      ensures Copied(before, store, offset, result[..], result.Length)
      ensures Collected(before, cache, store, offset, result.Length, offset + result.Length)
      ensures Queried(before, queries, offset, result.Length, offset + result.Length)
    {
      queries := [];
      var resultOffset: nat, fetchOffset: nat, at: nat := 0, start, offset;
      while resultOffset < result.Length
        invariant Stands(offset, result.Length, resultOffset, at, fetchOffset)
        invariant Gathered(before, cache, store, queries, result[..], offset, result.Length, resultOffset, fetchOffset)
      {
        var toCopy := Min(result.Length - resultOffset, CHUNK_SIZE - (at - fetchOffset));
        StandsNext(offset, result.Length, resultOffset, at, fetchOffset, toCopy);
        queries := GatherChunk(store, offset, fetchOffset, at, toCopy, result, resultOffset, queries, before);
        resultOffset := resultOffset + toCopy;
        fetchOffset := fetchOffset + CHUNK_SIZE;
        at := fetchOffset;
      }
      GatheredAll(before, cache, store, queries, result[..], offset, result.Length, fetchOffset);
    }

    /** One round of the loop. */
    method GatherChunk(store: Bytes, offset: nat, start: nat, at: nat, toCopy: nat, result: array<bv8>,
                       resultOffset: nat, queries: seq<nat>, ghost before: Cache) returns (next: seq<nat>)
      requires Gathered(before, cache, store, queries, result[..], offset, result.Length, resultOffset, start)
      requires start <= at == offset + resultOffset && at + toCopy <= start + CHUNK_SIZE
      requires resultOffset + toCopy <= result.Length && Touched(offset, result.Length, start)
      modifies this, result
      ensures Gathered(before, cache, store, next, result[..], offset, result.Length, resultOffset + toCopy,
                       start + CHUNK_SIZE)
    {
      ghost var held, filled := cache, result[..];
      var queried := FetchChunk(store, start, at - start, toCopy, result, resultOffset);
      GatheredNext(before, held, cache, store, queries, filled, result[..], offset, result.Length, resultOffset, start,
                   at - start, toCopy);
      next := if queried then queries + [start] else queries;
    }

    /** Copies what one chunk contributes to the result. */
    method FetchChunk(store: Bytes, start: nat, chunkOffset: nat, toCopy: nat, result: array<bv8>, resultOffset: nat)
      returns (queried: bool)
      requires resultOffset + toCopy <= result.Length
      modifies this, result
      ensures SliceCopied(ChunkData(old(cache), store, start), chunkOffset, toCopy, old(result[..]), result[..],
                          resultOffset)
      ensures queried == (start !in old(cache)) && Loaded(old(cache), cache, store, start)
    {
      var data;
      data, queried := Load(store, start);
      CopySlice(data, chunkOffset, toCopy, result, resultOffset);
    }

    /** The entry of one chunk, queried if it is missing, and marked as used. */
    method Load(store: Bytes, start: nat) returns (data: Bytes, queried: bool)
      modifies this
      ensures data == ChunkData(old(cache), store, start) && queried == (start !in old(cache))
      ensures Loaded(old(cache), cache, store, start)
    {
      queried := start !in cache;
      if queried {
        cache := cache[start := CacheEntry(Page(store, start), clock(ticks))];
        ticks := ticks + 1;
      }
      var entry := cache[start];
      cache := cache[start := entry.(lastAccess := clock(ticks))];
      ticks := ticks + 1;
      data := entry.data;
    }

    /** Copies what there is of a slice into the result and leaves the rest of it as it is. */
    method CopySlice(data: Bytes, from: nat, count: nat, result: array<bv8>, to: nat)
      requires to + count <= result.Length
      modifies result
      ensures SliceCopied(data, from, count, old(result[..]), result[..], to)
    {
      var n := if from >= |data| then 0 else Min(count, |data| - from);
      for i := 0 to n
        invariant forall j :: 0 <= j < result.Length ==>
                    result[j] == if to <= j < to + i then data[from + (j - to)] else old(result[j])
      {
        result[to + i] := data[from + i];
      }
    }

    /** Above the limit the entries that were not used for longest go, and no others. */
    method Evict()
      modifies `cache
      ensures |cache| == Min(|old(cache)|, MAX_ENTRIES) && (|old(cache)| <= MAX_ENTRIES ==> cache == old(cache))
      ensures forall k :: k in cache ==> k in old(cache) && cache[k] == old(cache)[k]
      ensures forall e, k :: e in old(cache) && e !in cache && k in cache ==>
                old(cache)[e].lastAccess <= cache[k].lastAccess
    {
      while |cache| > MAX_ENTRIES
        invariant |cache| >= Min(|old(cache)|, MAX_ENTRIES) && (|old(cache)| <= MAX_ENTRIES ==> cache == old(cache))
        invariant forall k :: k in cache ==> k in old(cache) && cache[k] == old(cache)[k]
        invariant forall e, k :: e in old(cache) && e !in cache && k in cache ==>
                    old(cache)[e].lastAccess <= cache[k].lastAccess
        decreases |cache|
      {
        var oldest := Oldest();
        assert (cache - {oldest}).Keys == cache.Keys - {oldest};
        cache := cache - {oldest};
      }
    }

    method Oldest() returns (oldest: nat)
      requires |cache| > 0
      ensures oldest in cache && forall k :: k in cache ==> cache[oldest].lastAccess <= cache[k].lastAccess
    {
      var rest := cache.Keys;
      oldest :| oldest in rest;
      rest := rest - {oldest};
      while rest != {}
        invariant rest <= cache.Keys && oldest in cache
        invariant forall k :: k in cache && k !in rest ==> cache[oldest].lastAccess <= cache[k].lastAccess
        decreases rest
      {
        var k :| k in rest;
        if cache[k].lastAccess < cache[oldest].lastAccess {
          oldest := k;
        }
        rest := rest - {k};
      }
    }
  }

  /** Over an unchanging store every fetch is a direct read, and leaves the cache as fresh as it was. */
  method FetchUnchanging(c: ChunkCache, store: Bytes, offset: nat, length: nat) returns (result: array<bv8>)
    requires Fresh(c.cache, store)
    modifies c
    ensures Fresh(c.cache, store) && |c.cache| <= MAX_ENTRIES && result.Length == length
    ensures forall p :: offset <= p < offset + length ==> result[p - offset] == DirectByte(store, p)
  {
    ghost var before := c.cache;
    var queries;
    result, queries := c.Fetch(store, offset, length);
    FreshStays(before, c.cache, store, offset, length);
    forall p | offset <= p < offset + length
      ensures result[p - offset] == DirectByte(store, p)
    {
      FreshReadsDirect(before, store, p);
    }
  }

  /** The chunk of this byte is in the cache. */
  predicate IsHeld(cache: Cache, position: nat) {
    Align(position) in cache
  }

  /** These bytes are those of a range as the cache shows them. */
  ghost predicate ShowsCached(cache: Cache, store: Bytes, offset: nat, result: Bytes) {
    forall p :: offset <= p < offset + |result| ==> result[p - offset] == CachedByte(cache, store, p)
  }

  /** Of a range read through chunks cached over a shorter store, exactly these bytes are right. */
  ghost predicate RightIff(held: Cache, before: Bytes, store: Bytes, offset: nat, second: Bytes) {
    forall p :: offset <= p < offset + |second| ==>
                  (second[p - offset] == DirectByte(store, p) <==> !IsHeld(held, p) || IsStillRight(before, store, p))
  }

  lemma GrownRangeReadsIff(held: Cache, before: Bytes, store: Bytes, offset: nat, second: Bytes)
    requires Fresh(held, before) && before <= store && ShowsCached(held, store, offset, second)
    ensures RightIff(held, before, store, offset, second)
  {
    forall p | offset <= p < offset + |second|
      ensures second[p - offset] == DirectByte(store, p) <==> !IsHeld(held, p) || IsStillRight(before, store, p)
    {
      if IsHeld(held, p) {
        GrownStoreReadsIff(held, before, store, p);
      } else {
        MissingReadsDirect(held, store, p);
      }
    }
  }

  lemma MissingReadsDirect(cache: Cache, store: Bytes, position: nat)
    requires !IsHeld(cache, position)
    ensures CachedByte(cache, store, position) == DirectByte(store, position)
  {
  }

  lemma FreshStays(cache: Cache, after: Cache, store: Bytes, offset: nat, length: nat)
    requires Fresh(cache, store)
    requires forall k :: k in after ==> k in cache || Touched(offset, length, k)
    requires forall k :: k in after ==> after[k].data == ChunkData(cache, store, k)
    ensures Fresh(after, store)
  {
  }

  lemma RangeIsHeld(cache: Cache, after: Cache, offset: nat, length: nat)
    requires forall k: nat :: k in cache || Touched(offset, length, k) ==> k in after || |after| == MAX_ENTRIES
    ensures forall p: nat :: offset <= p < offset + length ==> IsHeld(after, p) || |after| == MAX_ENTRIES
  {
    forall p: nat | offset <= p < offset + length
      ensures IsHeld(after, p) || |after| == MAX_ENTRIES
    {
      ByteIsTouched(offset, length, p);
    }
  }

  lemma ByteIsTouched(offset: nat, length: nat, position: nat)
    requires offset <= position < offset + length
    ensures Touched(offset, length, Align(position))
  {
  }

  /**
   The same range before and after the store grows. A byte of the second answer is right exactly when its chunk
   was evicted in between, or it was there already, or is still behind the end, or happens to be zero; and below
   the entry limit no chunk of the range is evicted.
   */
  method FetchTwice(c: ChunkCache, before: Bytes, store: Bytes, offset: nat, length: nat)
    returns (second: array<bv8>, held: Cache)
    requires Fresh(c.cache, before) && before <= store
    modifies c
    ensures fresh(second) && second.Length == length
    ensures RightIff(held, before, store, offset, second[..])
    ensures forall p: nat :: offset <= p < offset + length ==> IsHeld(held, p) || |held| == MAX_ENTRIES
    ensures forall k :: k in held ==> k in old(c.cache) || Touched(offset, length, k)
  {
    var first, queries := c.Fetch(before, offset, length);
    held := c.cache;
    FreshStays(old(c.cache), held, before, offset, length);
    RangeIsHeld(old(c.cache), held, offset, length);
    second, queries := c.Fetch(store, offset, length);
    GrownRangeReadsIff(held, before, store, offset, second[..]);
  }

  const ONE_BYTE: Bytes := [1]

  /** A new cache, two fetches of one byte, and between them one byte written: the second fetch does not see it. */
  method StaleRead(clock: nat -> int) returns (second: array<bv8>)
    ensures fresh(second) && second.Length == 1
    ensures second[..][0] != DirectByte(ONE_BYTE, 0)
  {
    var c := new ChunkCache(clock);
    var held;
    second, held := FetchTwice(c, [], ONE_BYTE, 0, 1);
    assert held.Keys <= {0};
    OneKeyAtMost(held);
    assert IsHeld(held, 0) && !IsStillRight([], ONE_BYTE, 0);
  }

  lemma OneKeyAtMost(cache: Cache)
    requires cache.Keys <= {0}
    ensures |cache| <= 1
  {
    assert cache.Keys == {} || cache.Keys == {0};
    assert |cache| == |cache.Keys|;
  }
}
