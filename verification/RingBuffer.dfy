/**
 The ring buffer of a node: chunks of a byte stream, the oldest of which are dropped or cut when the
 capacity is exceeded. It behaves as the last bytes of one growing stream.
 */
module RingBuffers {
  type Bytes = seq<bv8>

  datatype Chunk = Chunk(seqNo: int, base: int, timestamp: string, data: Bytes)

  datatype SnapshotChunk = SnapshotChunk(offset: int, timestamp: string, data: Bytes)

  datatype Snapshot = Snapshot(offset: int, data: Bytes, chunks: seq<SnapshotChunk>, total: int, eof: bool)

  /** The chunks lie one behind the other from an offset on, and together they hold the bytes. */
  ghost predicate Holds(chunks: seq<Chunk>, from: int, bytes: Bytes) {
    if chunks == [] then bytes == []
    else
      var c := chunks[0];
      && c.base == from && c.data != [] && c.data <= bytes
      && Holds(chunks[1..], from + |c.data|, bytes[|c.data|..])
  }

  lemma DropDrop<T>(s: seq<T>, a: nat, b: nat)
    requires a + b <= |s|
    ensures s[a..][b..] == s[a + b..]
  {
  }

  lemma PrefixSplit<T>(p: seq<T>, s: seq<T>)
    requires p <= s
    ensures s == p + s[|p|..]
  {
  }

  lemma PrefixAppend<T>(p: seq<T>, s: seq<T>, t: seq<T>)
    requires p <= s
    ensures p <= s + t && (s + t)[|p|..] == s[|p|..] + t
  {
  }

  lemma {:induction false} HoldsSnoc(chunks: seq<Chunk>, from: int, bytes: Bytes, c: Chunk)
    requires Holds(chunks, from, bytes) && c.data != [] && c.base == from + |bytes|
    ensures Holds(chunks + [c], from, bytes + c.data)
  {
    if chunks == [] {
      assert chunks + [c] == [c] && bytes + c.data == c.data && [c][1..] == [];
    } else {
      var d := chunks[0].data;
      HoldsSnoc(chunks[1..], from + |d|, bytes[|d|..], c);
      PrefixAppend(d, bytes, c.data);
      assert (chunks + [c])[1..] == chunks[1..] + [c];
    }
  }

  /** The first chunk cut at the front. */
  lemma HoldsCut(chunks: seq<Chunk>, from: int, bytes: Bytes, drop: nat)
    requires Holds(chunks, from, bytes) && chunks != [] && drop < |chunks[0].data|
    ensures var c := chunks[0];
            Holds(chunks[0 := c.(base := c.base + drop, data := c.data[drop..])], from + drop, bytes[drop..])
  {
    var c := chunks[0];
    var cut := c.(base := c.base + drop, data := c.data[drop..]);
    assert chunks[0 := cut][1..] == chunks[1..];
    CutPrefix(c.data, bytes, drop);
  }

  lemma CutPrefix<T>(p: seq<T>, s: seq<T>, drop: nat)
    requires p <= s && drop < |p|
    ensures p[drop..] <= s[drop..] && s[drop..][|p| - drop..] == s[|p|..] && p[drop..] != []
  {
  }

  /** Where chunk i lies and what it holds. */
  lemma {:induction false} HoldsAt(chunks: seq<Chunk>, from: int, bytes: Bytes, i: nat)
    requires Holds(chunks, from, bytes) && i < |chunks|
    ensures var c := chunks[i];
            && c.data != [] && from <= c.base && c.base + |c.data| <= from + |bytes|
            && c.data == bytes[c.base - from..c.base - from + |c.data|]
            && (i == 0 ==> c.base == from)
            && (i + 1 < |chunks| ==> chunks[i + 1].base == c.base + |c.data|)
            && (i + 1 == |chunks| ==> c.base + |c.data| == from + |bytes|)
  {
    var d := chunks[0].data;
    if i == 0 {
      PrefixSplit(d, bytes);
      if |chunks| == 1 {
        assert chunks[1..] == [];
      } else {
        assert Holds(chunks[1..], from + |d|, bytes[|d|..]);
      }
    } else {
      HoldsAt(chunks[1..], from + |d|, bytes[|d|..], i - 1);
      var c := chunks[i];
      SliceOfDrop(bytes, |d|, c.base - from - |d|, |c.data|);
    }
  }

  lemma SliceOfDrop<T>(s: seq<T>, a: nat, b: nat, n: nat)
    requires a + b + n <= |s|
    ensures s[a..][b..b + n] == s[a + b..a + b + n]
  {
  }

  function Min(a: int, b: int): int {
    if a < b then a else b
  }

  function Max(a: int, b: int): int {
    if a > b then a else b
  }

  /** Records of a snapshot lie one behind the other from an offset on and hold its data. */
  ghost predicate Records(records: seq<SnapshotChunk>, from: int, data: Bytes) {
    if records == [] then data == []
    else
      var last := records[|records| - 1];
      && last.data != [] && |last.data| <= |data|
      && last.offset == from + |data| - |last.data|
      && data[|data| - |last.data|..] == last.data
      && Records(records[..|records| - 1], from, data[..|data| - |last.data|])
  }

  lemma RecordsSnoc(records: seq<SnapshotChunk>, from: int, data: Bytes, r: SnapshotChunk)
    requires Records(records, from, data) && r.data != [] && r.offset == from + |data|
    ensures Records(records + [r], from, data + r.data)
  {
    assert (records + [r])[..|records|] == records;
    AppendSplit(data, r.data);
  }

  lemma AppendSplit<T>(a: seq<T>, b: seq<T>)
    ensures (a + b)[..|a|] == a && (a + b)[|a|..] == b
  {
  }

  /** The record is a piece of a retained chunk and carries its time. */
  ghost predicate IsPiece(r: SnapshotChunk, chunks: seq<Chunk>) {
    exists i :: 0 <= i < |chunks| && IsPieceOf(r, chunks[i])
  }

  predicate IsPieceOf(r: SnapshotChunk, c: Chunk) {
    && r.timestamp == c.timestamp
    && c.base <= r.offset && r.offset + |r.data| <= c.base + |c.data|
    && r.data == c.data[r.offset - c.base..r.offset - c.base + |r.data|]
  }

  ghost predicate ArePieces(records: seq<SnapshotChunk>, chunks: seq<Chunk>) {
    forall rec :: rec in records ==> IsPiece(rec, chunks)
  }

  lemma PiecesSnoc(records: seq<SnapshotChunk>, chunks: seq<Chunk>, index: nat, rec: SnapshotChunk)
    requires ArePieces(records, chunks) && index < |chunks| && IsPieceOf(rec, chunks[index])
    ensures ArePieces(records + [rec], chunks)
  {
    assert IsPiece(rec, chunks);
  }

  /** The chunks and the count that eviction leaves. */
  function Evicted(chunks: seq<Chunk>, retained: int, capacity: int): (seq<Chunk>, int)
    requires capacity > 0
  {
    if retained <= capacity || chunks == [] then (chunks, retained)
    else
      var excess, oldest := retained - capacity, chunks[0];
      if |oldest.data| <= excess then Evicted(chunks[1..], retained - |oldest.data|, capacity)
      else (chunks[0 := oldest.(base := oldest.base + excess, data := oldest.data[excess..])], retained - excess)
  }

  /** The chunks hold the last `size` bytes of the stream. */
  ghost predicate HoldsLast(chunks: seq<Chunk>, stream: Bytes, size: int) {
    0 <= size <= |stream| && Holds(chunks, |stream| - size, stream[|stream| - size..])
  }

  /** What of an appended chunk can be kept at all. */
  function Trimmed(c: Chunk, capacity: int): Chunk
    requires capacity > 0
  {
    var drop := |c.data| - capacity;
    if drop > 0 then c.(base := c.base + drop, data := c.data[drop..]) else c
  }

  class RingBuffer {
    const capacity: int
    var chunks: seq<Chunk>
    var total: int
    var retained: int
    /** Everything appended since the last reset. */
    ghost var stream: Bytes

    ghost function WindowSize(): nat
      reads this
    {
      if capacity <= 0 then 0 else Min(|stream|, capacity)
    }

    ghost predicate Valid()
      reads this
    {
      && total == |stream|
      && retained == WindowSize()
      && HoldsLast(chunks, stream, retained)
    }

    constructor (capacity: int)
      ensures Valid() && stream == [] && this.capacity == capacity
    {
      this.capacity := capacity;
      chunks, total, retained, stream := [], 0, 0, [];
    }

    method Reset()
      modifies this
      ensures Valid() && stream == []
    {
      chunks, total, retained, stream := [], 0, 0, [];
    }

    /** Callers place a chunk at the end of the stream. */
    method Append(chunk: Chunk)
      requires Valid() && chunk.base == total
      modifies this
      ensures Valid() && stream == old(stream) + chunk.data
    {
      var c := chunk;
      var dataLen := |c.data|;
      var end := c.base + dataLen;
      if end > total {
        total := end;
      }
      stream := stream + chunk.data;
      if dataLen == 0 || capacity <= 0 {
        assert capacity <= 0 ==> chunks == [];
        assert dataLen == 0 ==> stream == old(stream);
        return;
      }
      if dataLen > capacity {
        var drop := dataLen - capacity;
        c := c.(base := c.base + drop, data := c.data[drop..]);
        dataLen := |c.data|;
      }
      AppendKeepsWindow(chunks, old(stream), retained, chunk, capacity);
      chunks := chunks + [c];
      retained := retained + dataLen;
      Evict();
    }

    /** Drops and cuts the oldest chunks until what is retained fits. */
    method Evict()
      requires capacity > 0
      modifies `chunks, `retained
      ensures (chunks, retained) == Evicted(old(chunks), old(retained), capacity)
    {
      while retained > capacity && |chunks| > 0
        invariant Evicted(old(chunks), old(retained), capacity) == Evicted(chunks, retained, capacity)
        decreases |chunks|, retained
      {
        var excess := retained - capacity;
        var oldest := chunks[0];
        if |oldest.data| <= excess {
          retained := retained - |oldest.data|;
          chunks := chunks[1..];
          continue;
        }
        chunks := chunks[0 := oldest.(base := oldest.base + excess, data := oldest.data[excess..])];
        retained := retained - excess;
      }
    }

    method Query(offset: int, length: int) returns (r: Snapshot)
      requires Valid()
      ensures r.offset == Max(0, offset) && r.total == |stream|
      ensures var o := Max(0, offset);
              if length <= 0 || o >= |stream| then r.data == [] && r.chunks == [] && r.eof == (o >= |stream|)
              else if o < |stream| - WindowSize() then r.data == [] && r.chunks == [] && !r.eof
              else
                && r.data == stream[o..Min(o + length, |stream|)]
                && Records(r.chunks, o, r.data)
                && ArePieces(r.chunks, chunks)
                && !r.eof
    {
      var o := Max(0, offset);
      if length <= 0 {
        return Snapshot(o, [], [], total, o >= total);
      }
      if o >= total {
        return Snapshot(o, [], [], total, true);
      }
      if |chunks| > 0 {
        HoldsAt(chunks, total - retained, stream[total - retained..], 0);
      }
      if |chunks| == 0 || o < chunks[0].base {
        return Snapshot(o, [], [], total, false);
      }
      var count := if o + length > total then total - o else length;
      var start := StartChunk(o);
      var data, records := Copy(o, count, start);
      return Snapshot(o, data, records, total, false);
    }

    /** The first chunk that ends behind the offset. */
    method StartChunk(o: int) returns (start: nat)
      requires Valid() && chunks != [] && total - retained <= o < total
      ensures start < |chunks| && chunks[start].base <= o < chunks[start].base + |chunks[start].data|
    {
      start := 0;
      HoldsAt(chunks, total - retained, stream[total - retained..], 0);
      while chunks[start].base + |chunks[start].data| <= o
        invariant start < |chunks| && chunks[start].base <= o
        decreases |chunks| - start
      {
        HoldsAt(chunks, total - retained, stream[total - retained..], start);
        start := start + 1;
      }
    }

    /** Chunk i is the stretch of the stream that its offset says, and the next chunk follows it. */
    lemma ChunkInStream(i: nat)
      requires Valid() && i < |chunks|
      ensures var c := chunks[i];
              && c.data != [] && 0 <= c.base && c.base + |c.data| <= total
              && c.data == stream[c.base..c.base + |c.data|]
              && (if i + 1 < |chunks| then chunks[i + 1].base == c.base + |c.data| else c.base + |c.data| == total)
    {
      HoldsAt(chunks, total - retained, stream[total - retained..], i);
      SliceOfDrop(stream, total - retained, chunks[i].base - (total - retained), |chunks[i].data|);
    }

    /** What has been copied from the offset o on: a stretch of the stream and the pieces it came in. */
    ghost predicate Copied(o: int, result: Bytes, records: seq<SnapshotChunk>)
      reads this
    {
      && 0 <= o && o + |result| <= |stream| && result == stream[o..o + |result|]
      && Records(records, o, result)
      && ArePieces(records, chunks)
    }

    lemma PieceIsStretch(index: nat, rec: SnapshotChunk)
      requires Valid() && index < |chunks| && IsPieceOf(rec, chunks[index])
      ensures 0 <= rec.offset && rec.offset + |rec.data| <= |stream|
      ensures rec.data == stream[rec.offset..rec.offset + |rec.data|]
    {
      ChunkInStream(index);
      var c := chunks[index];
      PieceOfStream(stream, c.base, c.data, rec.offset - c.base, |rec.data|);
    }

    /** One more piece, cut from chunk `index` where the copy stopped. */
    lemma CopiedOneMore(o: int, result: Bytes, records: seq<SnapshotChunk>, index: nat, rec: SnapshotChunk)
      requires Valid() && Copied(o, result, records) && index < |chunks|
      requires IsPieceOf(rec, chunks[index]) && rec.data != [] && rec.offset == o + |result|
      ensures Copied(o, result + rec.data, records + [rec])
    {
      PieceIsStretch(index, rec);
      JoinSlices(stream, o, |result|, |rec.data|);
      RecordsSnoc(records, o, result, rec);
      PiecesSnoc(records, chunks, index, rec);
    }

    method Copy(o: int, count: nat, start: nat) returns (result: Bytes, records: seq<SnapshotChunk>)
      requires Valid() && 0 <= o && 0 < count && o + count <= total
      requires start < |chunks| && chunks[start].base <= o < chunks[start].base + |chunks[start].data|
      ensures |result| == count && Copied(o, result, records)
    {
      result, records := [], [];
      var remaining, index, skip := count, start, o - chunks[start].base;
      while remaining > 0 && index < |chunks|
        invariant 0 <= remaining && |result| == count - remaining && Copied(o, result, records)
        invariant remaining > 0 ==>
                    index < |chunks| && 0 <= skip < |chunks[index].data| && chunks[index].base + skip == o + |result|
        decreases |chunks| - index
      {
        ChunkInStream(index);
        var c := chunks[index];
        var available := Min(|c.data| - skip, remaining);
        var rec := SnapshotChunk(c.base + skip, c.timestamp, c.data[skip..skip + available]);
        CopiedOneMore(o, result, records, index, rec);
        result := result + rec.data;
        records := records + [rec];
        remaining := remaining - available;
        index := index + 1;
        skip := 0;
        if remaining > 0 && index < |chunks| {
          ChunkInStream(index);
        }
      }
    }
  }

  function TotalSize(chunks: seq<Chunk>): nat {
    if chunks == [] then 0 else |chunks[0].data| + TotalSize(chunks[1..])
  }

  lemma {:induction false} ChunksBelow(chunks: seq<Chunk>, from: int, bytes: Bytes)
    requires Holds(chunks, from, bytes)
    ensures TotalSize(chunks) == |bytes| && forall d :: d in chunks ==> d.data != []
  {
    if chunks != [] {
      ChunksBelow(chunks[1..], from + |chunks[0].data|, bytes[|chunks[0].data|..]);
    }
  }

  /** A chunk that fills the capacity by itself drives out all others. */
  lemma {:induction false} EvictedOversized(chunks: seq<Chunk>, c: Chunk, capacity: int)
    requires capacity > 0 && |c.data| == capacity && forall d :: d in chunks ==> d.data != []
    ensures Evicted(chunks + [c], TotalSize(chunks) + capacity, capacity) == ([c], capacity)
  {
    if chunks == [] {
      assert chunks + [c] == [c];
    } else {
      assert (chunks + [c])[1..] == chunks[1..] + [c];
      EvictedOversized(chunks[1..], c, capacity);
    }
  }

  /** Eviction keeps the last bytes. */
  lemma {:induction false} EvictedHolds(chunks: seq<Chunk>, from: int, bytes: Bytes, capacity: int)
    requires capacity > 0 && Holds(chunks, from, bytes)
    ensures var r := Evicted(chunks, |bytes|, capacity);
            var keep := Min(|bytes|, capacity);
            r.1 == keep && Holds(r.0, from + |bytes| - keep, bytes[|bytes| - keep..])
  {
    if |bytes| > capacity {
      var excess, d := |bytes| - capacity, chunks[0].data;
      if |d| <= excess {
        EvictedHolds(chunks[1..], from + |d|, bytes[|d|..], capacity);
        DropDrop(bytes, |d|, excess - |d|);
      } else {
        HoldsCut(chunks, from, bytes, excess);
      }
    } else {
      assert bytes[0..] == bytes;
    }
  }

  /** A chunk within the capacity: the joined window, cut to the capacity. */
  lemma AppendFitting(chunks: seq<Chunk>, stream: Bytes, size: nat, c: Chunk, capacity: int)
    requires capacity > 0 && HoldsLast(chunks, stream, size) && size == Min(|stream|, capacity)
    requires c.base == |stream| && 0 < |c.data| <= capacity
    ensures var r := Evicted(chunks + [c], size + |c.data|, capacity);
            r.1 == Min(|stream + c.data|, capacity) && HoldsLast(r.0, stream + c.data, r.1)
  {
    var from, bytes := |stream| - size, stream[|stream| - size..];
    HoldsSnoc(chunks, from, bytes, c);
    EvictedHolds(chunks + [c], from, bytes + c.data, capacity);
    AppendDrop(stream, c.data, from);
    DropDrop(stream + c.data, from, |bytes + c.data| - Min(|bytes + c.data|, capacity));
  }

  /** A chunk at or above the capacity: only its own end stays. */
  lemma AppendOversized(chunks: seq<Chunk>, stream: Bytes, size: nat, c: Chunk, capacity: int)
    requires capacity > 0 && HoldsLast(chunks, stream, size)
    requires c.base == |stream| && |c.data| > capacity
    ensures var r := Evicted(chunks + [Trimmed(c, capacity)], size + capacity, capacity);
            r.1 == capacity && HoldsLast(r.0, stream + c.data, capacity)
  {
    var t := Trimmed(c, capacity);
    ChunksBelow(chunks, |stream| - size, stream[|stream| - size..]);
    EvictedOversized(chunks, t, capacity);
    LastOf(stream, c.data, capacity);
    SingleHolds(t);
  }

  lemma SingleHolds(c: Chunk)
    requires c.data != []
    ensures Holds([c], c.base, c.data)
  {
    assert [c][1..] == [] && c.data[|c.data|..] == [];
  }

  /** Appending a chunk at the end of the stream keeps the retained chunks the end of the longer stream. */
  lemma AppendKeepsWindow(chunks: seq<Chunk>, stream: Bytes, size: nat, c: Chunk, capacity: int)
    requires capacity > 0 && HoldsLast(chunks, stream, size) && size == Min(|stream|, capacity)
    requires c.base == |stream| && c.data != []
    ensures var t := Trimmed(c, capacity);
            var r := Evicted(chunks + [t], size + |t.data|, capacity);
            r.1 == Min(|stream + c.data|, capacity) && HoldsLast(r.0, stream + c.data, r.1)
  {
    if |c.data| > capacity {
      AppendOversized(chunks, stream, size, c, capacity);
    } else {
      AppendFitting(chunks, stream, size, c, capacity);
    }
  }

  lemma LastOf<T>(s: seq<T>, t: seq<T>, n: nat)
    requires n <= |t|
    ensures (s + t)[|s| + |t| - n..] == t[|t| - n..]
  {
  }

  lemma AppendDrop<T>(s: seq<T>, t: seq<T>, k: nat)
    requires k <= |s|
    ensures (s + t)[k..] == s[k..] + t
  {
  }

  lemma PieceOfStream<T>(stream: seq<T>, base: nat, data: seq<T>, skip: nat, n: nat)
    requires base + |data| <= |stream| && data == stream[base..base + |data|] && skip + n <= |data|
    ensures data[skip..skip + n] == stream[base + skip..base + skip + n]
  {
    var whole, piece := data[skip..skip + n], stream[base + skip..base + skip + n];
    assert forall j :: 0 <= j < n ==> whole[j] == piece[j];
  }

  lemma JoinSlices<T>(stream: seq<T>, o: nat, a: nat, b: nat)
    requires o + a + b <= |stream|
    ensures stream[o..o + a] + stream[o + a..o + a + b] == stream[o..o + a + b]
  {
  }
}
