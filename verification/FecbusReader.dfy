/**
 How a FECbus session reads a frame from the pieces that a port delivers, and how a device answers a request.
 Frames are not stuffed, so a frame that holds a boundary byte inside cannot be read.
 */
module FecbusReader {
  import opened Wrappers
  import opened Pieces
  import opened ModbusCrc
  import opened FecbusFrame

  const MAX_FRAME_BYTES := 256

  /** TimedOut stands for everything that ends the wait: deadline, stop request, closed port. */
  datatype ReadError = TimedOut | TooLong

  datatype Received = Received(raw: Bytes, frame: Frame)

  type Outcome = Result<Received, ReadError>

  /** What the reader makes of its buffer: a frame, or the bytes that it keeps. */
  function Step(buf: Bytes): Result<Received, Bytes> {
    match Extracted(buf)
    case Incomplete(_) => Err(buf)
    case TooShort(rest) => Err(rest)
    case Complete(candidate, rest) =>
      match Decoded(candidate)
      case Ok(f) => Ok(Received(candidate, f))
      case Err(_) => Err(rest)
  }

  function ReadAll(buf: Bytes, pieces: seq<Bytes>): Outcome
    decreases |pieces|
  {
    if pieces == [] then Err(TimedOut)
    else if pieces[0] == [] then ReadAll(buf, pieces[1..])
    else
      var more := buf + pieces[0];
      if |more| > MAX_FRAME_BYTES then Err(TooLong)
      else
        match Step(more)
        case Ok(received) => Ok(received)
        case Err(kept) => ReadAll(kept, pieces[1..])
  }

  /** Reads pieces until they hold a frame; the wait ends when the pieces do. */
  method ReadFrame(pieces: seq<Bytes>) returns (r: Outcome)
    ensures r == ReadAll([], pieces)
  {
    var buf: Bytes := [];
    for i := 0 to |pieces|
      invariant ReadAll([], pieces) == ReadAll(buf, pieces[i..])
    {
      assert pieces[i..][1..] == pieces[i + 1..];
      if |pieces[i]| == 0 {
        continue;
      }
      buf := buf + pieces[i];
      if |buf| > MAX_FRAME_BYTES {
        return Err(TooLong);
      }
      var extraction := ExtractFrame(buf);
      match extraction {
        case Incomplete(_) =>
        case TooShort(rest) => buf := rest;
        case Complete(raw, rest) =>
          var decoded := DecodeFrame(raw);
          if decoded.Ok? {
            return Ok(Received(raw, decoded.value));
          }
          buf := rest;
      }
    }
    return Err(TimedOut);
  }

  // What a read returns has arrived

  lemma StepFound(buf: Bytes) returns (before: Bytes, after: Bytes)
    requires Step(buf).Ok?
    ensures var r := Step(buf).value;
            buf == before + r.raw + after && Enclosed(r.raw) && Decoded(r.raw) == Ok(r.frame)
  {
    before := CandidateIsEnclosed(buf);
    after := Extracted(buf).rest;
  }

  lemma StepKeeps(buf: Bytes) returns (dropped: Bytes)
    requires Step(buf).Err?
    ensures buf == dropped + Step(buf).error
  {
    if Extracted(buf).Incomplete? {
      dropped := [];
      assert [] + buf == buf;
    } else {
      RestIsSuffix(buf);
      dropped := buf[..|buf| - |Extracted(buf).rest|];
      SuffixSplit(buf, Extracted(buf).rest);
    }
  }

  lemma SuffixSplit<T>(s: seq<T>, rest: seq<T>)
    requires |rest| <= |s| && rest == s[|s| - |rest|..]
    ensures s == s[..|s| - |rest|] + rest
  {
  }

  lemma {:induction false} ReturnedBytesArrived(buf: Bytes, pieces: seq<Bytes>) returns (before: Bytes, after: Bytes)
    requires ReadAll(buf, pieces).Ok?
    ensures var r := ReadAll(buf, pieces).value;
            && buf + Concat(pieces) == before + r.raw + after
            && Enclosed(r.raw) && Decoded(r.raw) == Ok(r.frame)
    decreases |pieces|
  {
    var r := ReadAll(buf, pieces).value;
    if pieces[0] == [] {
      assert buf + Concat(pieces) == buf + Concat(pieces[1..]);
      before, after := ReturnedBytesArrived(buf, pieces[1..]);
    } else {
      var more := buf + pieces[0];
      AppendAssoc(buf, pieces[0], Concat(pieces[1..]));
      if Step(more).Ok? {
        var tail;
        before, tail := StepFound(more);
        after := tail + Concat(pieces[1..]);
        AppendAssoc(before + r.raw, tail, Concat(pieces[1..]));
      } else {
        var kept := Step(more).error;
        var dropped := StepKeeps(more);
        var inner;
        inner, after := ReturnedBytesArrived(kept, pieces[1..]);
        before := dropped + inner;
        AppendAssoc(dropped, kept, Concat(pieces[1..]));
        Regroup(dropped, inner, r.raw, after);
      }
    }
  }

  /** A frame that the reader returns stood in what arrived, between two boundaries, and is what those bytes encode. */
  lemma ReturnedFrameArrived(pieces: seq<Bytes>) returns (before: Bytes, after: Bytes)
    requires ReadAll([], pieces).Ok?
    ensures var r := ReadAll([], pieces).value;
            && Concat(pieces) == before + r.raw + after
            && Enclosed(r.raw) && ValidFields(r.frame) && r.raw == Wire(r.frame)
  {
    EmptyPrefix(Concat(pieces));
    before, after := ReturnedBytesArrived([], pieces);
    var r := ReadAll([], pieces).value;
    DecodesOnlyEncodings(r.raw, r.frame);
  }

  lemma Regroup<T>(a: seq<T>, b: seq<T>, c: seq<T>, d: seq<T>)
    ensures a + (b + c + d) == a + b + c + d
  {
  }

  // What a stream holds, and what of it the reader finds

  lemma EmptyPrefix<T>(s: seq<T>)
    ensures [] + s == s
  {
  }

  /** The first frame of a whole stream: candidate after candidate is tried until one decodes. */
  function Scan(s: Bytes): Outcome
    decreases |s|
  {
    if Step(s).Ok? then Ok(Step(s).value)
    else if Extracted(s).Incomplete? then Err(TimedOut)
    else
      RestIsSuffix(s);
      Scan(Extracted(s).rest)
  }

  /** What was extracted stays the first candidate when more bytes arrive. */
  lemma ExtractionStays(buf: Bytes, more: Bytes)
    ensures var e, later := Extracted(buf), Extracted(buf + more);
            && (e.TooShort? ==> later == TooShort(e.rest + more))
            && (e.Complete? ==> later == Complete(e.candidate, e.rest + more))
  {
    if !Extracted(buf).Incomplete? {
      var start := BoundaryFrom(buf, 0).value;
      ExtractedFromStays(buf, more, start, BoundaryFrom(buf, start + 1).value);
      BoundaryStays(buf, more, 0);
    }
  }

  lemma ExtractedFromStays(buf: Bytes, more: Bytes, start: nat, end: nat)
    requires start < |buf| && BoundaryFrom(buf, start + 1) == Some(end)
    ensures var e, later := ExtractedFrom(buf, start), ExtractedFrom(buf + more, start);
            && (e.TooShort? ==> later == TooShort(e.rest + more))
            && (e.Complete? ==> later == Complete(e.candidate, e.rest + more))
  {
    BoundaryStays(buf, more, start + 1);
    SliceOfPrefix(buf, more, start, end + 1);
  }

  lemma BoundaryStays(buf: Bytes, more: Bytes, from: nat)
    requires from <= |buf| && BoundaryFrom(buf, from).Some?
    ensures BoundaryFrom(buf + more, from) == BoundaryFrom(buf, from)
  {
    BoundaryIs(buf + more, from, BoundaryFrom(buf, from).value);
  }

  lemma SliceOfPrefix<T>(s: seq<T>, t: seq<T>, a: nat, b: nat)
    requires a <= b <= |s|
    ensures (s + t)[a..b] == s[a..b] && (s + t)[b..] == s[b..] + t
  {
  }

  lemma StepFoundStays(buf: Bytes, more: Bytes)
    requires Step(buf).Ok?
    ensures Step(buf + more) == Step(buf)
  {
    ExtractionStays(buf, more);
  }

  /** A candidate that does not decode is passed over in the whole stream as well. */
  lemma ScanPassesOver(buf: Bytes, more: Bytes)
    requires Step(buf).Err? && !Extracted(buf).Incomplete?
    ensures Scan(buf + more) == Scan(Step(buf).error + more)
  {
    ExtractionStays(buf, more);
  }

  /** In whatever pieces a stream comes, the reader returns its first frame or nothing. */
  lemma {:induction false} ScanOrNothing(buf: Bytes, pieces: seq<Bytes>)
    requires |buf + Concat(pieces)| <= MAX_FRAME_BYTES
    ensures ReadAll(buf, pieces) == Scan(buf + Concat(pieces)) || ReadAll(buf, pieces) == Err(TimedOut)
    decreases |pieces|
  {
    if pieces != [] {
      var more, tail := buf + pieces[0], Concat(pieces[1..]);
      AppendAssoc(buf, pieces[0], tail);
      if pieces[0] == [] {
        assert more == buf;
        ScanOrNothing(buf, pieces[1..]);
      } else if Step(more).Ok? {
        StepFoundStays(more, tail);
      } else if Extracted(more).Incomplete? {
        ScanOrNothing(more, pieces[1..]);
      } else {
        ScanPassesOver(more, tail);
        RestIsSuffix(more);
        ScanOrNothing(Step(more).error, pieces[1..]);
      }
    }
  }

  /** When the first candidate decodes, the reader returns it, in whatever pieces the stream comes. */
  lemma {:induction false} FirstCandidateIsRead(buf: Bytes, pieces: seq<Bytes>)
    requires |buf + Concat(pieces)| <= MAX_FRAME_BYTES
    requires Extracted(buf).Incomplete? && Step(buf + Concat(pieces)).Ok?
    ensures ReadAll(buf, pieces) == Ok(Step(buf + Concat(pieces)).value)
    decreases |pieces|
  {
    assert buf + [] == buf;
    if pieces != [] {
      var more, tail := buf + pieces[0], Concat(pieces[1..]);
      AppendAssoc(buf, pieces[0], tail);
      ExtractionStays(more, tail);
      if pieces[0] == [] {
        assert more == buf;
        FirstCandidateIsRead(buf, pieces[1..]);
      } else if Extracted(more).Incomplete? {
        FirstCandidateIsRead(more, pieces[1..]);
      }
    }
  }

  /** A stream with no frame in it, or whose first candidate decodes, is read as scanned in whatever pieces it comes. */
  lemma ReadAsScanned(s: Bytes, pieces: seq<Bytes>)
    requires |s| <= MAX_FRAME_BYTES && Concat(pieces) == s && (Scan(s).Err? || Step(s).Ok?)
    ensures ReadAll([], pieces) == Scan(s)
  {
    EmptyPrefix(s);
    if Step(s).Ok? {
      FirstCandidateIsRead([], pieces);
    } else {
      ScanErrsAlike(s);
      ScanOrNothing([], pieces);
    }
  }

  lemma {:induction false} ScanErrsAlike(s: Bytes)
    ensures Scan(s).Err? ==> Scan(s) == Err(TimedOut)
    decreases |s|
  {
    if Step(s).Err? && !Extracted(s).Incomplete? {
      RestIsSuffix(s);
      ScanErrsAlike(Extracted(s).rest);
    }
  }

  // One frame behind some noise

  /** The wire form has no boundary but its first and last byte. */
  predicate NoBoundaryInside(f: Frame)
    requires ValidFields(f)
  {
    Enclosed(Wire(f))
  }

  lemma WireLength(f: Frame)
    requires ValidFields(f)
    ensures 12 <= |Wire(f)| <= 19
  {
  }

  /** Before its last byte, a frame behind quiet noise gives nothing yet. */
  lemma PartOfFrame(noise: Bytes, wire: Bytes, buf: Bytes)
    requires Quiet(noise) && Enclosed(wire) && buf < noise + wire
    ensures Step(buf) == Err(buf)
  {
    forall i | 0 <= i < |buf| && i != |noise|
      ensures buf[i] != BOUNDARY
    {
      assert buf[i] == (noise + wire)[i];
      if i > |noise| {
        assert wire[i - |noise|] == wire[1..|wire| - 1][i - |noise| - 1];
      } else {
        assert noise[i] in noise;
      }
    }
    OneBoundaryAtMost(buf, |noise|);
  }

  lemma OneBoundaryAtMost(buf: Bytes, at: nat)
    requires forall i :: 0 <= i < |buf| && i != at ==> buf[i] != BOUNDARY
    ensures Extracted(buf).Incomplete?
  {
  }

  lemma WholeFrame(noise: Bytes, f: Frame, behind: Bytes)
    requires Quiet(noise) && ValidFields(f) && NoBoundaryInside(f)
    ensures Step(noise + Wire(f) + behind) == Ok(Received(Wire(f), f))
  {
    WireLength(f);
    DecodesEncoding(f);
    ExtractedBehind(noise, Wire(f), behind);
  }

  lemma {:induction false} ReadsInTime(noise: Bytes, f: Frame, buf: Bytes, pieces: seq<Bytes>)
    requires Quiet(noise) && ValidFields(f) && NoBoundaryInside(f) && noise + Wire(f) <= buf + Concat(pieces)
    requires buf < noise + Wire(f) && |buf| <= MAX_FRAME_BYTES
    ensures ReadAll(buf, pieces) ==
            if SizeWhenComplete(|buf|, pieces, |noise| + |Wire(f)|) <= MAX_FRAME_BYTES then Ok(Received(Wire(f), f))
            else Err(TooLong)
    decreases |pieces|
  {
    var stream := buf + Concat(pieces);
    NextBuffer(stream, buf, pieces);
    SizeStep(|buf|, pieces, |noise| + |Wire(f)|);
    var more := buf + pieces[0];
    if pieces[0] == [] {
      ReadsInTime(noise, f, buf, pieces[1..]);
    } else if |more| < |noise| + |Wire(f)| {
      PrefixesCompare(more, noise + Wire(f), stream);
      PartOfFrame(noise, Wire(f), more);
      if |more| <= MAX_FRAME_BYTES {
        ReadsInTime(noise, f, more, pieces[1..]);
      }
    } else {
      PrefixesCompare(noise + Wire(f), more, stream);
      BeginsWithFrame(noise, f, more);
    }
  }

  lemma PrefixesCompare<T>(a: seq<T>, b: seq<T>, s: seq<T>)
    requires a <= s && b <= s && |a| <= |b|
    ensures a <= b && (|a| < |b| ==> a < b)
  {
  }

  lemma RestBehind<T>(a: seq<T>, s: seq<T>) returns (behind: seq<T>)
    requires a <= s
    ensures s == a + behind
  {
    behind := s[|a|..];
  }

  lemma BeginsWithFrame(noise: Bytes, f: Frame, buf: Bytes)
    requires Quiet(noise) && ValidFields(f) && NoBoundaryInside(f) && noise + Wire(f) <= buf
    ensures Step(buf) == Ok(Received(Wire(f), f))
  {
    var behind := RestBehind(noise + Wire(f), buf);
    WholeFrame(noise, f, behind);
  }

  /**
   A frame behind quiet noise, and whatever follows it: it is read exactly when the buffer is within the limit after
   the piece that completes it, and otherwise the reader gives up.
   */
  lemma ReadsBehindNoise(noise: Bytes, f: Frame, pieces: seq<Bytes>)
    requires Quiet(noise) && ValidFields(f) && NoBoundaryInside(f) && noise + Wire(f) <= Concat(pieces)
    ensures ReadAll([], pieces) ==
            if SizeWhenComplete(0, pieces, |noise| + |Wire(f)|) <= MAX_FRAME_BYTES then Ok(Received(Wire(f), f))
            else Err(TooLong)
  {
    WireLength(f);
    EmptyPrefix(Concat(pieces));
    ReadsInTime(noise, f, [], pieces);
  }

  /** A frame behind quiet noise, alone: it is read exactly when noise and frame fit the buffer. */
  lemma ReadBehindNoiseIff(noise: Bytes, f: Frame, pieces: seq<Bytes>)
    requires Quiet(noise) && ValidFields(f) && NoBoundaryInside(f) && Concat(pieces) == noise + Wire(f)
    ensures ReadAll([], pieces)
            == if |noise| + |Wire(f)| > MAX_FRAME_BYTES then Err(TooLong) else Ok(Received(Wire(f), f))
  {
    JoinedIsWhole(noise, Wire(f), Concat(pieces));
    SizeOfWhole(0, pieces, |noise| + |Wire(f)|);
    ReadsBehindNoise(noise, f, pieces);
  }

  // A frame with a boundary inside

  lemma InnerBoundary(f: Frame, at: nat)
    requires ValidFields(f) && 0 < at <= 7 && Body(f)[at] == BOUNDARY
    ensures at == 6
  {
    SmallLength(|f.data|);
  }

  /** Of the eight bytes before the data, only the first and the group number can be a boundary. */
  lemma StartsAtFront(f: Frame, g: Frame, at: nat)
    requires ValidFields(f) && ValidFields(g) && at + |g.data| <= |f.data|
    requires Body(f)[at] == BOUNDARY && (at == 6 ==> Body(f)[7] == g.kind)
    ensures at == 0
  {
    if 0 < at {
      InnerBoundary(f, at);
      SmallLength(|f.data|);
    }
  }

  /** Nothing that could be decoded lies inside a frame. */
  lemma NoFrameInside(f: Frame, g: Frame, at: nat)
    requires ValidFields(f) && ValidFields(g) && at + |Wire(g)| <= |Wire(f)|
    requires Wire(f)[at..at + |Wire(g)|] == Wire(g)
    ensures at == 0 && f == g
  {
    var wire, raw := Wire(f), Wire(g);
    WireShape(f);
    WireShape(g);
    assert raw[0] == wire[at] && raw[1] == wire[at + 1] && raw[7] == wire[at + 7];
    StartsAtFront(f, g, at);
    assert |g.data| == |f.data| && wire == raw;
  }

  lemma SliceBehindNoise(noise: Bytes, wire: Bytes, before: Bytes, raw: Bytes, after: Bytes) returns (at: nat)
    requires Quiet(noise) && noise + wire == before + raw + after && |raw| > 0 && raw[0] == BOUNDARY
    ensures at + |raw| <= |wire| && wire[at..at + |raw|] == raw
  {
    var s := before + raw + after;
    forall i | 0 <= i < |noise|
      ensures s[i] != BOUNDARY
    {
      assert s[i] == noise[i];
    }
    assert s[|before|] == raw[0];
    at := |before| - |noise|;
    var slice := wire[at..at + |raw|];
    forall i | 0 <= i < |raw|
      ensures slice[i] == raw[i]
    {
      assert s[|before| + i] == raw[i];
      assert (noise + wire)[|noise| + at + i] == wire[at + i];
    }
  }

  lemma WireStarts(f: Frame)
    requires ValidFields(f)
    ensures |Wire(f)| > 0 && Wire(f)[0] == BOUNDARY
  {
  }

  /** Behind quiet noise and before nothing else, a frame holds no wire form but its own. */
  lemma OnlyWholeArrives(noise: Bytes, f: Frame, before: Bytes, g: Frame, after: Bytes)
    requires Quiet(noise) && ValidFields(f) && ValidFields(g) && noise + Wire(f) == before + Wire(g) + after
    ensures f == g
  {
    WireStarts(g);
    var at := SliceBehindNoise(noise, Wire(f), before, Wire(g), after);
    NoFrameInside(f, g, at);
  }

  lemma ReadOnlyWhole(noise: Bytes, f: Frame, pieces: seq<Bytes>)
    requires Quiet(noise) && ValidFields(f) && Concat(pieces) == noise + Wire(f)
    requires ReadAll([], pieces).Ok?
    ensures NoBoundaryInside(f) && ReadAll([], pieces).value.frame == f
  {
    var before, after := ReturnedFrameArrived(pieces);
    OnlyWholeArrives(noise, f, before, ReadAll([], pieces).value.frame, after);
  }

  /** A frame within the limit is read, whatever pieces it comes in, exactly when no boundary byte is inside. */
  lemma ReadIffNoBoundaryInside(noise: Bytes, f: Frame, pieces: seq<Bytes>)
    requires Quiet(noise) && ValidFields(f) && Concat(pieces) == noise + Wire(f)
    requires |noise| + |Wire(f)| <= MAX_FRAME_BYTES
    ensures NoBoundaryInside(f) ==> ReadAll([], pieces) == Ok(Received(Wire(f), f))
    ensures !NoBoundaryInside(f) ==> ReadAll([], pieces).Err?
  {
    if NoBoundaryInside(f) {
      ReadBehindNoiseIff(noise, f, pieces);
    } else if ReadAll([], pieces).Ok? {
      ReadOnlyWhole(noise, f, pieces);
    }
  }

  // A stray boundary

  lemma InsideHoldsNothing(wire: Bytes)
    requires Enclosed(wire)
    ensures Extracted(wire[1..]).Incomplete?
  {
    forall i | 0 <= i < |wire| - 1 && i != |wire| - 2
      ensures wire[1..][i] != BOUNDARY
    {
      assert wire[1..][i] == wire[1..|wire| - 1][i];
    }
    OneBoundaryAtMost(wire[1..], |wire| - 2);
  }

  /** The stray boundary and the opening one cancel, and the rest has no opening boundary any more. */
  lemma StrayBoundaryScan(noise: Bytes, wire: Bytes)
    requires Quiet(noise) && Enclosed(wire)
    ensures Step(noise + [BOUNDARY] + wire).Err? && Scan(noise + [BOUNDARY] + wire) == Err(TimedOut)
  {
    var pair := [BOUNDARY, BOUNDARY];
    ExtractedBehind(noise, pair, wire[1..]);
    StrayJoins(noise, wire);
    InsideHoldsNothing(wire);
  }

  lemma StrayJoins(noise: Bytes, wire: Bytes)
    requires wire != [] && wire[0] == BOUNDARY
    ensures noise + [BOUNDARY] + wire == noise + [BOUNDARY, BOUNDARY] + wire[1..]
  {
  }

  /** One boundary byte too many, anywhere before a frame, and the frame is lost, whatever pieces it comes in. */
  lemma StrayBoundaryLosesFrame(noise: Bytes, f: Frame, pieces: seq<Bytes>)
    requires Quiet(noise) && ValidFields(f) && NoBoundaryInside(f) && |noise| + 1 + |Wire(f)| <= MAX_FRAME_BYTES
    requires Concat(pieces) == noise + [BOUNDARY] + Wire(f)
    ensures ReadAll([], pieces) == Err(TimedOut)
  {
    StrayBoundaryScan(noise, Wire(f));
    ReadAsScanned(noise + [BOUNDARY] + Wire(f), pieces);
  }

  // What the missing byte stuffing and the single extraction for each read cost

  lemma BoundaryInData(f: Frame)
    requires ValidFields(f) && (f.group == BOUNDARY || BOUNDARY in f.data)
    ensures !NoBoundaryInside(f)
  {
    var wire := Wire(f);
    WireShape(f);
    var inside := wire[1..|wire| - 1];
    if f.group == BOUNDARY {
      assert inside[5] == BOUNDARY;
    } else {
      var i :| 0 <= i < |f.data| && f.data[i] == BOUNDARY;
      assert inside[7 + i] == wire[8..|wire| - 3][i];
    }
  }

  /** A valid frame with the boundary as its group number or in its data is never read. */
  lemma BoundaryInsideValidFrame(noise: Bytes, f: Frame, pieces: seq<Bytes>)
    requires ValidFields(f) && (f.group == BOUNDARY || BOUNDARY in f.data)
    requires Quiet(noise) && Concat(pieces) == noise + Wire(f) && |noise| + |Wire(f)| <= MAX_FRAME_BYTES
    ensures ReadAll([], pieces).Err?
  {
    BoundaryInData(f);
    ReadIffNoBoundaryInside(noise, f, pieces);
  }

  const GROUP_126 := Frame(0, 2, 0, 1, 1, 0x7E, [0])

  /** One such frame: a request to unit 2, function 0, in group 126. */
  lemma Group126IsNeverRead(pieces: seq<Bytes>)
    requires Concat(pieces) == Wire(GROUP_126)
    ensures ValidFields(GROUP_126) && ReadAll([], pieces).Err?
  {
    WireLength(GROUP_126);
    EmptyPrefix(Wire(GROUP_126));
    BoundaryInsideValidFrame([], GROUP_126, pieces);
  }

  lemma EmptySuffix<T>(s: seq<T>)
    ensures s + [] == s
  {
  }

  // Answers of a device

  datatype SlaveUnit = SlaveUnit(address: bv8, defaultStatus: bv8, autoStatusAnswer: bool, answers: map<bv8, Bytes>)

  datatype DataError = ReservedCode | PayloadTooLong

  const FUNCTION_STATUS_ANSWER: bv8 := 0x0F

  function BuildData(code: bv8, payload: Bytes): Result<Bytes, DataError> {
    if !IsFunctionAllowed(code) then Err(ReservedCode)
    else if |payload| > MAX_DATA_BYTES - 1 then Err(PayloadTooLong)
    else Ok([code] + payload)
  }

  function StatusAnswer(request: Frame, status: bv8): Frame {
    Frame(1, request.source, 3, if request.target == 0 then 1 else request.target, request.message, 0,
          [FUNCTION_STATUS_ANSWER, status])
  }

  function FunctionOf(f: Frame): bv8 {
    if f.data == [] then 0 else f.data[0]
  }

  /** The answer of one unit, no answer, or an answer that cannot be built. */
  function SlaveAnswer(request: Frame, unit: SlaveUnit): Result<Option<Frame>, DataError> {
    var code := FunctionOf(request);
    if code in unit.answers then
      match BuildData(code, unit.answers[code])
      case Err(e) => Err(e)
      case Ok(data) => Ok(Some(Frame(1, request.source, 3, unit.address, request.message, request.group, data)))
    else if !unit.autoStatusAnswer then Ok(None)
    else Ok(Some(StatusAnswer(request, unit.defaultStatus).(source := unit.address)))
  }

  /** What the controller takes for the answer to its request. */
  predicate MatchesAnswer(request: Frame, response: Frame) {
    && response.kind == 1
    && response.target == request.source
    && response.source == request.target
    && response.message == request.message
  }

  /**
   An answer to a valid request can be sent exactly when the unit's own address is one that frames can carry.
   Without a boundary inside it then reaches the controller in any pieces, and the controller takes it for the
   answer exactly when the unit has the address that was asked: so no answer to a broadcast, which asks
   address 0, is ever taken.
   */
  lemma AnswerIsTakenIff(request: Frame, unit: SlaveUnit, pieces: seq<Bytes>)
    requires ValidFields(request) && unit.address != 0
    requires SlaveAnswer(request, unit).Ok? && SlaveAnswer(request, unit).value.Some?
    ensures var answer := SlaveAnswer(request, unit).value.value;
            && (ValidFields(answer) <==> unit.address <= 63)
            && (MatchesAnswer(request, answer) <==> unit.address == request.target)
            && (ValidFields(answer) && NoBoundaryInside(answer) && Concat(pieces) == Wire(answer) ==>
                  ReadAll([], pieces) == Ok(Received(Wire(answer), answer)))
  {
    var answer := SlaveAnswer(request, unit).value.value;
    if ValidFields(answer) && NoBoundaryInside(answer) && Concat(pieces) == Wire(answer) {
      ReadsAlone(answer, pieces);
    }
  }

  lemma ReadsAlone(f: Frame, pieces: seq<Bytes>)
    requires ValidFields(f) && NoBoundaryInside(f) && Concat(pieces) == Wire(f)
    ensures ReadAll([], pieces) == Ok(Received(Wire(f), f))
  {
    WireLength(f);
    EmptyPrefix(Wire(f));
    ReadIffNoBoundaryInside([], f, pieces);
  }
}
