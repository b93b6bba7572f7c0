/**
 When it matters how a FECbus stream is cut into pieces. Each read of the port tries one candidate at most, so a
 candidate behind others that do not decode needs later reads, and a read brings at most 64 bytes.
 */
module FecbusPieces {
  import opened Wrappers
  import opened Pieces
  import opened ModbusCrc
  import opened FecbusFrame
  import opened FecbusReader

  /** How much one read of the port brings at most. */
  const READ_BYTES := 64

  /** Pieces that a port can deliver, one for each read. */
  predicate Deliverable(pieces: seq<Bytes>) {
    forall k :: 0 <= k < |pieces| ==> |pieces[k]| <= READ_BYTES
  }

  /** What a number of reads can bring at most. */
  function Capacity(count: nat): nat {
    64 * count
  }

  /**
   For each candidate that is passed over before the one that decodes, how many bytes of the stream there are from
   its closing boundary on.
   */
  function Backlog(s: Bytes): seq<nat>
    decreases |s|
  {
    if Step(s).Ok? || Extracted(s).Incomplete? then []
    else
      RestIsSuffix(s);
      [|Extracted(s).rest| + 1] + Backlog(Extracted(s).rest)
  }

  /**
   From each candidate that is passed over, the stream is too long to come in as few reads as are used up by that
   candidate and those passed over behind it.
   */
  predicate KeepsUp(s: Bytes) {
    var b := Backlog(s);
    forall k :: 0 <= k < |b| ==> b[k] > Capacity(|b| - k)
  }

  lemma HeadKeepsUp(x: nat, b: seq<nat>)
    ensures var c := [x] + b;
            (forall k :: 0 <= k < |c| ==> c[k] > Capacity(|c| - k)) <==>
            x > Capacity(|b| + 1) && forall k :: 0 <= k < |b| ==> b[k] > Capacity(|b| - k)
  {
    var c := [x] + b;
    assert forall k :: 0 <= k < |b| ==> c[k + 1] == b[k] && |c| - (k + 1) == |b| - k;
    assert c[0] == x;
    if forall k :: 0 <= k < |c| ==> c[k] > Capacity(|c| - k) {
      forall k | 0 <= k < |b|
        ensures b[k] > Capacity(|b| - k)
      {
        assert c[k + 1] > Capacity(|c| - (k + 1));
      }
    }
  }

  lemma KeepsUpNext(s: Bytes)
    requires Step(s).Err? && !Extracted(s).Incomplete?
    ensures var rest := Extracted(s).rest;
            && |Backlog(s)| == |Backlog(rest)| + 1
            && (KeepsUp(s) <==> |rest| + 1 > Capacity(|Backlog(s)|) && KeepsUp(rest))
  {
    HeadKeepsUp(|Extracted(s).rest| + 1, Backlog(Extracted(s).rest));
  }

  // Streams that are read in all pieces

  lemma BoundaryWasThere(buf: Bytes, more: Bytes, from: nat)
    requires from <= |buf| && BoundaryFrom(buf + more, from).Some? && BoundaryFrom(buf + more, from).value < |buf|
    ensures BoundaryFrom(buf, from) == BoundaryFrom(buf + more, from)
  {
    var at := BoundaryFrom(buf + more, from).value;
    forall i | from <= i < at
      ensures buf[i] != BOUNDARY
    {
      assert (buf + more)[i] == buf[i];
    }
    BoundaryIs(buf, from, at);
  }

  /** What completes a candidate leaves less behind it than it brings. */
  lemma CompletedBy(buf: Bytes, more: Bytes)
    requires Extracted(buf).Incomplete? && !Extracted(buf + more).Incomplete?
    ensures |Extracted(buf + more).rest| < |more|
  {
    var s := buf + more;
    var start, end := FirstTwo(s);
    if end < |buf| {
      ClosedInside(buf, more, start, end);
    }
  }

  lemma ClosedInside(buf: Bytes, more: Bytes, start: nat, end: nat)
    requires BoundaryFrom(buf + more, 0) == Some(start) && start < end < |buf|
    requires BoundaryFrom(buf + more, start + 1) == Some(end)
    ensures !Extracted(buf).Incomplete?
  {
    BoundaryWasThere(buf, more, 0);
    BoundaryWasThere(buf, more, start + 1);
  }

  lemma PrefixIsIncomplete(buf: Bytes, more: Bytes)
    requires Extracted(buf + more).Incomplete?
    ensures Extracted(buf).Incomplete?
  {
    ExtractionStays(buf, more);
  }

  /** Of what arrives, the pieces still to come hold more than can be used up by the candidates to be passed over. */
  predicate IsAhead(buf: Bytes, pieces: seq<Bytes>) {
    Extracted(buf).Incomplete? || |Concat(pieces)| > Capacity(|Backlog(buf + Concat(pieces))|)
  }

  /** A stream that keeps up gives its frame, in whatever pieces a port delivers it. */
  lemma {:induction false} ReadWhenAhead(buf: Bytes, pieces: seq<Bytes>)
    requires |buf + Concat(pieces)| <= MAX_FRAME_BYTES && Deliverable(pieces) && IsAhead(buf, pieces)
    requires Scan(buf + Concat(pieces)).Ok? && KeepsUp(buf + Concat(pieces))
    ensures ReadAll(buf, pieces) == Scan(buf + Concat(pieces))
    decreases |pieces|
  {
    var s := buf + Concat(pieces);
    if pieces == [] {
      assert s == buf;
    } else {
      var more, rest := buf + pieces[0], pieces[1..];
      AppendAssoc(buf, pieces[0], Concat(rest));
      if pieces[0] == [] {
        assert more == buf;
        ReadWhenAhead(buf, rest);
      } else if Step(more).Ok? {
        StepFoundStays(more, Concat(rest));
      } else if Extracted(more).Incomplete? {
        ReadWhenAhead(more, rest);
      } else {
        PassedWhenAhead(buf, pieces);
        ScanPassesOver(more, Concat(rest));
        ReadWhenAhead(Step(more).error, rest);
      }
    }
  }

  /** Passing over a candidate keeps the reader ahead. */
  lemma PassedWhenAhead(buf: Bytes, pieces: seq<Bytes>)
    requires pieces != [] && Deliverable(pieces) && IsAhead(buf, pieces) && KeepsUp(buf + Concat(pieces))
    requires Step(buf + pieces[0]).Err? && !Extracted(buf + pieces[0]).Incomplete?
    ensures var kept := Step(buf + pieces[0]).error;
            && |kept| < |buf + pieces[0]|
            && IsAhead(kept, pieces[1..]) && KeepsUp(kept + Concat(pieces[1..])) && Deliverable(pieces[1..])
  {
    var s, more, tail := buf + Concat(pieces), buf + pieces[0], Concat(pieces[1..]);
    AppendAssoc(buf, pieces[0], tail);
    RestIsSuffix(more);
    ExtractionStays(more, tail);
    KeepsUpNext(s);
    if Extracted(buf).Incomplete? {
      CompletedBy(buf, Concat(pieces));
    }
    assert |pieces[0]| <= READ_BYTES && |Concat(pieces)| == |pieces[0]| + |tail|;
  }

  // Streams that are lost in some pieces

  function SingleBytes(s: Bytes): seq<Bytes> {
    if s == [] then [] else [[s[0]]] + SingleBytes(s[1..])
  }

  lemma {:induction false} SingleBytesConcat(s: Bytes)
    ensures Concat(SingleBytes(s)) == s && Deliverable(SingleBytes(s))
  {
    if s != [] {
      SingleBytesConcat(s[1..]);
      assert SingleBytes(s)[1..] == SingleBytes(s[1..]);
      assert [s[0]] + s[1..] == s;
    }
  }

  /** As few pieces as the port can deliver. */
  function FullReads(s: Bytes): seq<Bytes> {
    if s == [] then [] else if |s| <= READ_BYTES then [s] else [s[..READ_BYTES]] + FullReads(s[READ_BYTES..])
  }

  lemma {:induction false} FullReadsConcat(s: Bytes, count: nat)
    ensures Concat(FullReads(s)) == s && Deliverable(FullReads(s))
    ensures |s| <= Capacity(count) ==> |FullReads(s)| <= count
    decreases |s|
  {
    if 0 < |s| <= READ_BYTES {
      assert [s][1..] == [] && s + [] == s;
    } else if s != [] {
      FullReadsConcat(s[READ_BYTES..], if count > 0 then count - 1 else 0);
      assert FullReads(s)[1..] == FullReads(s[READ_BYTES..]);
      assert s[..READ_BYTES] + s[READ_BYTES..] == s;
    }
  }

  /** Each read passes over one candidate at most, so as many reads as there are to pass over give nothing. */
  lemma {:induction false} TooFewReads(buf: Bytes, pieces: seq<Bytes>)
    requires |buf + Concat(pieces)| <= MAX_FRAME_BYTES && Scan(buf + Concat(pieces)).Ok?
    requires |pieces| <= |Backlog(buf + Concat(pieces))|
    ensures ReadAll(buf, pieces) == Err(TimedOut)
    decreases |pieces|
  {
    if pieces != [] {
      var more, rest := buf + pieces[0], pieces[1..];
      AppendAssoc(buf, pieces[0], Concat(rest));
      if pieces[0] == [] {
        assert more == buf;
        TooFewReads(buf, rest);
      } else if Step(more).Ok? {
        StepFoundStays(more, Concat(rest));
        assert false;
      } else if Extracted(more).Incomplete? {
        TooFewReads(more, rest);
      } else {
        ScanPassesOver(more, Concat(rest));
        ExtractionStays(more, Concat(rest));
        RestIsSuffix(more);
        TooFewReads(Step(more).error, rest);
      }
    }
  }

  lemma ReadNext(buf: Bytes, piece: Bytes, pieces: seq<Bytes>)
    requires piece != [] && |buf| + |piece| <= MAX_FRAME_BYTES
    ensures var step := Step(buf + piece);
            ReadAll(buf, [piece] + pieces) == if step.Ok? then Ok(step.value) else ReadAll(step.error, pieces)
  {
    assert ([piece] + pieces)[1..] == pieces;
  }

  /** Bytes that complete nothing are collected. */
  lemma {:induction false} Collects(buf: Bytes, t: Bytes, pieces: seq<Bytes>)
    requires Extracted(buf + t).Incomplete? && |buf + t| <= MAX_FRAME_BYTES
    ensures ReadAll(buf, SingleBytes(t) + pieces) == ReadAll(buf + t, pieces)
    decreases |t|
  {
    if t == [] {
      assert buf + t == buf && SingleBytes(t) + pieces == pieces;
    } else {
      var more := buf + [t[0]];
      assert more + t[1..] == buf + t;
      PrefixIsIncomplete(more, t[1..]);
      AppendAssoc([[t[0]]], SingleBytes(t[1..]), pieces);
      ReadNext(buf, [t[0]], SingleBytes(t[1..]) + pieces);
      Collects(more, t[1..], pieces);
    }
  }

  /** Where the first candidate of a stream is closed. */
  lemma FirstClosed(s: Bytes) returns (end: nat)
    requires !Extracted(s).Incomplete?
    ensures end < |s| && s[end + 1..] == Extracted(s).rest && |s| - end == |Extracted(s).rest| + 1
    ensures Extracted(s[..end]).Incomplete?
    ensures Step(s).Err? ==> Step(s[..end + 1]) == Err([])
  {
    var start;
    start, end := FirstTwo(s);
    ClosedBefore(s, start, end);
    StepOfPrefix(s, end + 1);
  }

  lemma FirstTwo(s: Bytes) returns (start: nat, end: nat)
    requires !Extracted(s).Incomplete?
    ensures BoundaryFrom(s, 0) == Some(start) && start < end < |s| && BoundaryFrom(s, start + 1) == Some(end)
    ensures Extracted(s).rest == s[end + 1..] && |s| - end == |Extracted(s).rest| + 1
  {
    start := BoundaryFrom(s, 0).value;
    end := BoundaryFrom(s, start + 1).value;
  }

  lemma StepOfPrefix(s: Bytes, n: nat)
    requires n <= |s| && !Extracted(s[..n]).Incomplete? && Extracted(s[..n]).rest == []
    ensures Step(s).Err? ==> Step(s[..n]) == Err([])
  {
    assert s == s[..n] + s[n..];
    ExtractionStays(s[..n], s[n..]);
  }

  lemma ClosedBefore(s: Bytes, start: nat, end: nat)
    requires BoundaryFrom(s, 0) == Some(start) && start < end < |s| && BoundaryFrom(s, start + 1) == Some(end)
    ensures Extracted(s[..end]).Incomplete?
    ensures !Extracted(s[..end + 1]).Incomplete? && Extracted(s[..end + 1]).rest == []
  {
    var t := s[..end + 1];
    BoundaryIs(t, 0, start);
    BoundaryIs(t, start + 1, end);
    OneBoundaryAtMost(s[..end], start);
  }

  lemma {:induction false} ConcatJoins<T>(a: seq<seq<T>>, b: seq<seq<T>>)
    ensures Concat(a + b) == Concat(a) + Concat(b)
  {
    if a == [] {
      assert a + b == b;
    } else {
      ConcatJoins(a[1..], b);
      assert (a + b)[1..] == a[1..] + b;
      AppendAssoc(a[0], Concat(a[1..]), Concat(b));
    }
  }

  lemma ThreeCut<T>(s: seq<T>, at: nat)
    requires at < |s|
    ensures s[..at] + s[at..] == s && [s[at]] + s[at + 1..] == s[at..] && s[..at] + [s[at]] == s[..at + 1]
  {
  }

  /** Byte by byte up to the closing boundary of a candidate, and then in other pieces. */
  lemma ByteByByteThen(s: Bytes, end: nat, last: seq<Bytes>) returns (pieces: seq<Bytes>)
    requires end < |s| <= MAX_FRAME_BYTES && Extracted(s[..end]).Incomplete?
    requires Deliverable(last) && Concat(last) == s[end..]
    ensures Deliverable(pieces) && Concat(pieces) == s && ReadAll([], pieces) == ReadAll(s[..end], last)
  {
    pieces := SingleBytes(s[..end]) + last;
    SingleBytesConcat(s[..end]);
    ConcatJoins(SingleBytes(s[..end]), last);
    ThreeCut(s, end);
    EmptyPrefix(s[..end]);
    Collects([], s[..end], last);
  }

  /** Byte by byte up to and including that boundary, the reader passes over the candidate and starts afresh. */
  lemma PassesByteByByte(s: Bytes, end: nat, rest: seq<Bytes>) returns (pieces: seq<Bytes>)
    requires end < |s| <= MAX_FRAME_BYTES && Extracted(s[..end]).Incomplete? && Step(s[..end + 1]) == Err([])
    requires Deliverable(rest) && Concat(rest) == s[end + 1..]
    ensures Deliverable(pieces) && Concat(pieces) == s && ReadAll([], pieces) == ReadAll([], rest)
  {
    var last := [[s[end]]] + rest;
    assert last[1..] == rest;
    ThreeCut(s, end);
    pieces := ByteByByteThen(s, end, last);
    ReadNext(s[..end], [s[end]], rest);
  }

  /** In full reads from that boundary on there are too few of them. */
  lemma LosesInFullReads(s: Bytes, end: nat) returns (pieces: seq<Bytes>)
    requires end < |s| <= MAX_FRAME_BYTES && Extracted(s[..end]).Incomplete? && Scan(s).Ok?
    requires |s| - end <= Capacity(|Backlog(s)|)
    ensures Deliverable(pieces) && Concat(pieces) == s && ReadAll([], pieces) == Err(TimedOut)
  {
    FullReadsConcat(s[end..], |Backlog(s)|);
    ThreeCut(s, end);
    pieces := ByteByByteThen(s, end, FullReads(s[end..]));
    TooFewReads(s[..end], FullReads(s[end..]));
  }

  /** A stream that does not keep up can be delivered so that its frame is lost. */
  lemma {:induction false} LosingPieces(s: Bytes) returns (pieces: seq<Bytes>)
    requires |s| <= MAX_FRAME_BYTES && Scan(s).Ok? && !KeepsUp(s)
    ensures Deliverable(pieces) && Concat(pieces) == s && ReadAll([], pieces) == Err(TimedOut)
    decreases |s|
  {
    var end := FirstClosed(s);
    KeepsUpNext(s);
    if |s| - end <= Capacity(|Backlog(s)|) {
      pieces := LosesInFullReads(s, end);
    } else {
      var rest := LosingPieces(s[end + 1..]);
      pieces := PassesByteByByte(s, end, rest);
    }
  }

  /** A stream that comes byte by byte is read as its scan says. */
  lemma {:induction false} ByteByByteIsScan(buf: Bytes, s: Bytes)
    requires Extracted(buf).Incomplete? && |buf + s| <= MAX_FRAME_BYTES
    ensures ReadAll(buf, SingleBytes(s)) == Scan(buf + s)
    decreases |s|
  {
    if s == [] {
      assert buf + s == buf;
    } else {
      var more, tail := buf + [s[0]], s[1..];
      assert SingleBytes(s)[1..] == SingleBytes(tail) && more + tail == buf + s;
      if Step(more).Ok? {
        StepFoundStays(more, tail);
      } else if Extracted(more).Incomplete? {
        ByteByByteIsScan(more, tail);
      } else {
        ScanPassesOver(more, tail);
        CompletedBy(buf, [s[0]]);
        ByteByByteIsScan([], tail);
      }
    }
  }

  /**
   A stream within the limit is read the same in all pieces that a port can deliver, namely as its first frame or
   none, exactly when it holds no frame or keeps up.
   */
  lemma PiecesDoNotMatterIff(s: Bytes)
    requires |s| <= MAX_FRAME_BYTES
    ensures (forall pieces :: Deliverable(pieces) && Concat(pieces) == s ==> ReadAll([], pieces) == Scan(s)) <==>
            Scan(s).Err? || KeepsUp(s)
  {
    EmptyPrefix(s);
    if Scan(s).Err? {
      forall pieces | Deliverable(pieces) && Concat(pieces) == s
        ensures ReadAll([], pieces) == Scan(s)
      {
        ReadAsScanned(s, pieces);
      }
    } else if KeepsUp(s) {
      forall pieces | Deliverable(pieces) && Concat(pieces) == s
        ensures ReadAll([], pieces) == Scan(s)
      {
        ReadWhenAhead([], pieces);
      }
    } else {
      var pieces := LosingPieces(s);
    }
  }

  /**
   Otherwise the pieces decide: the stream holds a frame that is read when the bytes come one by one, and is lost
   in others that the port can deliver.
   */
  lemma PiecesMatter(s: Bytes) returns (pieces: seq<Bytes>)
    requires |s| <= MAX_FRAME_BYTES && Scan(s).Ok? && !KeepsUp(s)
    ensures Deliverable(SingleBytes(s)) && Concat(SingleBytes(s)) == s && ReadAll([], SingleBytes(s)) == Scan(s)
    ensures Deliverable(pieces) && Concat(pieces) == s && ReadAll([], pieces) == Err(TimedOut)
  {
    SingleBytesConcat(s);
    EmptyPrefix(s);
    ByteByByteIsScan([], s);
    pieces := LosingPieces(s);
  }

  // Two stray boundaries

  lemma PairStep(tail: Bytes)
    ensures Extracted([BOUNDARY, BOUNDARY] + tail) == TooShort(tail)
  {
    EmptyPrefix([BOUNDARY, BOUNDARY]);
    ExtractedBehind([], [BOUNDARY, BOUNDARY], tail);
  }

  lemma TooShortIsPassed(s: Bytes, rest: Bytes)
    requires Extracted(s) == TooShort(rest) && Step(rest).Ok?
    ensures Scan(s) == Ok(Step(rest).value) && Backlog(s) == [|rest| + 1]
  {
    assert Scan(rest) == Ok(Step(rest).value);
    assert Backlog(rest) == [] && [|rest| + 1] + [] == [|rest| + 1];
  }

  /** The pair is the one candidate that is passed over. */
  lemma StrayPairScan(tail: Bytes)
    requires Step(tail).Ok?
    ensures var s := [BOUNDARY, BOUNDARY] + tail;
            Scan(s) == Ok(Step(tail).value) && Backlog(s) == [|tail| + 1]
  {
    PairStep(tail);
    TooShortIsPassed([BOUNDARY, BOUNDARY] + tail, tail);
  }

  lemma PairIff(tail: Bytes, received: Received)
    requires Step(tail) == Ok(received) && 2 + |tail| <= MAX_FRAME_BYTES
    ensures (forall pieces :: Deliverable(pieces) && Concat(pieces) == [BOUNDARY, BOUNDARY] + tail ==>
                                ReadAll([], pieces) == Ok(received))
            <==> |tail| >= READ_BYTES
  {
    StrayPairScan(tail);
    PiecesDoNotMatterIff([BOUNDARY, BOUNDARY] + tail);
    OneEntryKeepsUp([BOUNDARY, BOUNDARY] + tail, |tail| + 1);
  }

  lemma OneEntryKeepsUp(s: Bytes, x: nat)
    requires Backlog(s) == [x]
    ensures KeepsUp(s) <==> x > READ_BYTES
  {
    assert Backlog(s)[0] == x;
  }

  /**
   Two stray boundaries before a frame, with quiet noise between them and it: the frame is read in all pieces exactly
   when noise and frame together fill a read.
   */
  lemma StrayPairIff(noise: Bytes, f: Frame)
    requires Quiet(noise) && ValidFields(f) && NoBoundaryInside(f) && 2 + |noise| + |Wire(f)| <= MAX_FRAME_BYTES
    ensures var s := [BOUNDARY, BOUNDARY] + (noise + Wire(f));
            (forall pieces :: Deliverable(pieces) && Concat(pieces) == s ==>
                                ReadAll([], pieces) == Ok(Received(Wire(f), f)))
            <==> |noise| + |Wire(f)| >= READ_BYTES
  {
    WholeFrame(noise, f, []);
    EmptySuffix(noise + Wire(f));
    PairIff(noise + Wire(f), Received(Wire(f), f));
  }

  /** For instance two stray boundaries right before a frame: it is read byte by byte, and lost in one piece. */
  lemma StrayPairMatters(f: Frame)
    requires ValidFields(f) && NoBoundaryInside(f)
    ensures var s := [BOUNDARY, BOUNDARY] + Wire(f);
            && ReadAll([], SingleBytes(s)) == Ok(Received(Wire(f), f))
            && Deliverable([s]) && ReadAll([], [s]) == Err(TimedOut)
  {
    var s := [BOUNDARY, BOUNDARY] + Wire(f);
    WireLength(f);
    WholeFrame([], f, []);
    EmptyPrefix(Wire(f));
    EmptySuffix(Wire(f));
    StrayPairScan(Wire(f));
    EmptyPrefix(s);
    ByteByByteIsScan([], s);
    OnePiece(s);
    TooFewReads([], [s]);
  }

  lemma OnePiece<T>(s: seq<T>)
    ensures Concat([s]) == s
  {
    assert [s][1..] == [] && s + [] == s;
  }
}
