/**
 Two loops of the MODBUS session: assembling a frame from the pieces that a port delivers, and
 scanning a range of registers piece by piece, where addresses are 16-bit and wrap.
 */
module ModbusSession {
  import opened Wrappers
  import opened Pieces
  import opened Ascii
  import opened ModbusCrc
  import opened ModbusFraming

  // ---------------------------------------------------------------------------------------------
  // Reading a frame
  // ---------------------------------------------------------------------------------------------

  const MAX_FRAME_BYTES := 513

  /** TimedOut stands for everything that ends the wait: deadline, stop request, closed port. */
  datatype ReadError = TimedOut | TooLong | Malformed(error: FrameError)

  datatype Received = Received(raw: Bytes, frame: Frame)

  predicate CrLfAt(buf: Bytes, i: nat) {
    i + 1 < |buf| && buf[i] == CR && buf[i + 1] == LF
  }

  function FirstCrLf(buf: Bytes): (r: Option<nat>)
    ensures r.Some? ==> CrLfAt(buf, r.value) && forall j :: 0 <= j < r.value ==> !CrLfAt(buf, j)
    ensures r.None? ==> forall j :: 0 <= j ==> !CrLfAt(buf, j)
  {
    if |buf| < 2 then None
    else if CrLfAt(buf, 0) then Some(0)
    else
      match FirstCrLf(buf[1..])
      case None => assert forall j :: j > 0 && CrLfAt(buf, j) ==> CrLfAt(buf[1..], j - 1); None
      case Some(i) => assert forall j :: 0 < j < i + 1 && CrLfAt(buf, j) ==> CrLfAt(buf[1..], j - 1); Some(i + 1)
  }

  /** What the reader makes of the bytes collected so far; nothing when it goes on reading. */
  function Offer(mode: string, buf: Bytes): Option<Result<Received, ReadError>> {
    if mode == "ascii" then
      match FirstCrLf(buf)
      case None => None
      case Some(i) =>
        (match DecodeFrame(mode, buf[..i + 2])
         case Ok(f) => Some(Ok(Received(buf[..i + 2], f)))
         case Err(e) => Some(Err(Malformed(e))))
    else
      match DecodeFrame(mode, buf)
      case Ok(f) => Some(Ok(Received(buf, f)))
      case Err(_) => None
  }

  function ReadAll(mode: string, buf: Bytes, pieces: seq<Bytes>): Result<Received, ReadError>
    decreases |pieces|
  {
    if pieces == [] then Err(TimedOut)
    else if pieces[0] == [] then ReadAll(mode, buf, pieces[1..])
    else
      var more := buf + pieces[0];
      if |more| > MAX_FRAME_BYTES then Err(TooLong)
      else
        match Offer(mode, more)
        case Some(r) => r
        case None => ReadAll(mode, more, pieces[1..])
  }

  /** Reads pieces until they hold a frame; the wait ends when the pieces do. */
  method ReadFrame(mode: string, pieces: seq<Bytes>) returns (r: Result<Received, ReadError>)
    ensures r == ReadAll(mode, [], pieces)
  {
    var buf: Bytes := [];
    for i := 0 to |pieces|
      invariant ReadAll(mode, [], pieces) == ReadAll(mode, buf, pieces[i..])
    {
      assert pieces[i..][1..] == pieces[i + 1..];
      if |pieces[i]| == 0 {
        continue;
      }
      buf := buf + pieces[i];
      if |buf| > MAX_FRAME_BYTES {
        return Err(TooLong);
      }
      if mode == "ascii" {
        var end := FirstCrLf(buf);
        if end.Some? {
          var raw := buf[..end.value + 2];
          var decoded := DecodeFrame(mode, raw);
          return match decoded case Ok(f) => Ok(Received(raw, f)) case Err(e) => Err(Malformed(e));
        }
        continue;
      }
      var decoded := DecodeFrame(mode, buf);
      if decoded.Ok? {
        return Ok(Received(buf, decoded.value));
      }
    }
    return Err(TimedOut);
  }

  lemma {:induction false} HexDigitsOnly(data: Bytes)
    ensures forall i :: 0 <= i < |EncodeHex(data)| ==> EncodeHex(data)[i] != CR && EncodeHex(data)[i] != LF
  {
    if data != [] {
      DigitsAreNoDelimiters(data[0]);
      HexDigitsOnly(data[1..]);
    }
  }

  lemma DigitsAreNoDelimiters(b: bv8)
    ensures HexDigit(b >> 4) != CR && HexDigit(b >> 4) != LF
    ensures HexDigit(b & 0x0F) != CR && HexDigit(b & 0x0F) != LF
  {
  }

  /** In an ASCII frame the closing CR LF is the only one. */
  lemma OneCrLf(payload: Bytes, i: nat)
    ensures CrLfAt(EncodeAscii(payload), i) <==> i == |EncodeAscii(payload)| - 2
  {
    var hex := EncodeHex(payload + [Lrc(payload)]);
    HexDigitsOnly(payload + [Lrc(payload)]);
    var frame := EncodeAscii(payload);
    assert frame[0] == COLON && forall k :: 1 <= k <= |hex| ==> frame[k] == hex[k - 1];
    assert frame[|hex| + 1] == CR && frame[|hex| + 2] == LF;
  }

  lemma SameCrLf(a: Bytes, b: Bytes, stream: Bytes, i: nat)
    requires a <= stream && b <= stream && i + 1 < |a| && i + 1 < |b|
    ensures CrLfAt(a, i) <==> CrLfAt(b, i)
  {
    assert a[i] == stream[i] == b[i] && a[i + 1] == stream[i + 1] == b[i + 1];
  }

  lemma OfferOfPrefix(frame: Bytes, stream: Bytes, buf: Bytes)
    requires frame <= stream && buf <= stream && |frame| >= 2
    requires forall i: nat :: CrLfAt(frame, i) <==> i == |frame| - 2
    ensures if |buf| < |frame| then FirstCrLf(buf).None?
            else FirstCrLf(buf) == Some(|frame| - 2) && buf[..|frame|] == frame
  {
    forall i: nat | i + 1 < |frame| && i + 1 < |buf|
      ensures CrLfAt(buf, i) <==> CrLfAt(frame, i)
    {
      SameCrLf(buf, frame, stream, i);
    }
    if |buf| >= |frame| {
      assert CrLfAt(buf, |frame| - 2);
      assert buf[..|frame|] == stream[..|frame|] == frame;
    }
  }

  /** Of a stream that starts with an ASCII frame, the reader offers that frame once it is complete, nothing before. */
  lemma AsciiOffer(payload: Bytes, stream: Bytes, buf: Bytes)
    requires EncodeAscii(payload) <= stream && buf <= stream
    ensures var frame := EncodeAscii(payload);
            if |buf| < |frame| then FirstCrLf(buf).None?
            else FirstCrLf(buf) == Some(|frame| - 2) && buf[..|frame|] == frame
  {
    var frame := EncodeAscii(payload);
    forall i: nat
      ensures CrLfAt(frame, i) <==> i == |frame| - 2
    {
      OneCrLf(payload, i);
    }
    OfferOfPrefix(frame, stream, buf);
  }

  lemma AsciiComplete(unitId: bv8, pdu: Pdu, buf: Bytes)
    requires unitId != 0
    requires var frame := EncodeAscii(Payload(unitId, pdu));
             |buf| >= |frame| && FirstCrLf(buf) == Some(|frame| - 2) && buf[..|frame|] == frame
    ensures Offer("ascii", buf) == Some(Ok(Received(EncodeAscii(Payload(unitId, pdu)), Frame("ascii", unitId, pdu))))
  {
    ModeNames();
    AsciiRoundTrip(unitId, pdu);
  }

  /** Of this stream the reader offers nothing before it holds n bytes, and this from then on. */
  ghost predicate Yields(stream: Bytes, n: nat, received: Received) {
    forall buf :: buf <= stream ==> Offer("ascii", buf) == if |buf| < n then None else Some(Ok(received))
  }

  lemma YieldedStep(stream: Bytes, n: nat, received: Received, buf: Bytes, pieces: seq<Bytes>)
    requires pieces != [] && pieces[0] != [] && Yields(stream, n, received) && buf + pieces[0] <= stream
    ensures var more := buf + pieces[0];
            ReadAll("ascii", buf, pieces) ==
            if |more| > MAX_FRAME_BYTES then Err(TooLong)
            else if |more| < n then ReadAll("ascii", more, pieces[1..]) else Ok(received)
  {
    var more := buf + pieces[0];
    assert Offer("ascii", more) == if |more| < n then None else Some(Ok(received));
  }

  lemma {:induction false} ReadsWhatIsYielded(stream: Bytes, n: nat, received: Received, buf: Bytes, pieces: seq<Bytes>)
    requires Yields(stream, n, received) && stream == buf + Concat(pieces) && |buf| < n <= |stream|
    requires |buf| <= MAX_FRAME_BYTES
    ensures ReadAll("ascii", buf, pieces) ==
            if SizeWhenComplete(|buf|, pieces, n) <= MAX_FRAME_BYTES then Ok(received) else Err(TooLong)
    decreases |pieces|
  {
    NextBuffer(stream, buf, pieces);
    SizeStep(|buf|, pieces, n);
    var more := buf + pieces[0];
    if pieces[0] == [] {
      ReadsWhatIsYielded(stream, n, received, buf, pieces[1..]);
    } else {
      YieldedStep(stream, n, received, buf, pieces);
      if |more| < n && |more| <= MAX_FRAME_BYTES {
        ReadsWhatIsYielded(stream, n, received, more, pieces[1..]);
      }
    }
  }

  lemma AsciiFrameYields(unitId: bv8, pdu: Pdu, stream: Bytes)
    requires unitId != 0 && EncodeAscii(Payload(unitId, pdu)) <= stream
    ensures var frame := EncodeAscii(Payload(unitId, pdu));
            Yields(stream, |frame|, Received(frame, Frame("ascii", unitId, pdu)))
  {
    var frame := EncodeAscii(Payload(unitId, pdu));
    forall buf | buf <= stream
      ensures Offer("ascii", buf)
              == if |buf| < |frame| then None else Some(Ok(Received(frame, Frame("ascii", unitId, pdu))))
    {
      AsciiOffer(Payload(unitId, pdu), stream, buf);
      if |buf| >= |frame| {
        AsciiComplete(unitId, pdu, buf);
      }
    }
  }

  /**
   However a port splits a stream that starts with an ASCII frame, and whatever follows the frame: the reader returns
   it with its fields when the buffer is within the limit after the piece that completes it, and else gives up.
   */
  lemma AsciiReaderAssembles(unitId: bv8, pdu: Pdu, pieces: seq<Bytes>)
    requires unitId != 0 && EncodeAscii(Payload(unitId, pdu)) <= Concat(pieces)
    ensures var frame := EncodeAscii(Payload(unitId, pdu));
            ReadAll("ascii", [], pieces) ==
            if SizeWhenComplete(0, pieces, |frame|) <= MAX_FRAME_BYTES
            then Ok(Received(frame, Frame("ascii", unitId, pdu))) else Err(TooLong)
  {
    var frame := EncodeAscii(Payload(unitId, pdu));
    assert [] + Concat(pieces) == Concat(pieces);
    AsciiFrameYields(unitId, pdu, Concat(pieces));
    ReadsWhatIsYielded(Concat(pieces), |frame|, Received(frame, Frame("ascii", unitId, pdu)), [], pieces);
  }

  /** The ASCII reader returns a frame that arrives alone exactly when it carries at most 252 data bytes. */
  lemma AsciiReaderIff(unitId: bv8, pdu: Pdu, pieces: seq<Bytes>)
    requires unitId != 0 && Concat(pieces) == EncodeAscii(Payload(unitId, pdu))
    ensures ReadAll("ascii", [], pieces) == Ok(Received(Concat(pieces), Frame("ascii", unitId, pdu)))
            <==> |pdu.data| <= 252
  {
    var frame := EncodeAscii(Payload(unitId, pdu));
    assert |Payload(unitId, pdu)| == |pdu.data| + 2;
    assert |frame| == 2 * |pdu.data| + 9;
    AsciiReaderAssembles(unitId, pdu, pieces);
    SizeOfWhole(0, pieces, |frame|);
  }

  /** No proper part of the frame, as far as it has arrived at some moment, decodes by itself. */
  ghost predicate NothingDecodesEarly(mode: string, frame: Bytes, buf: Bytes, pieces: seq<Bytes>) {
    forall k :: 0 <= k <= |pieces| && |Collected(buf, pieces, k)| < |frame| ==>
                  DecodeFrame(mode, Collected(buf, pieces, k)).Err?
  }

  /** What the reader holds after k pieces. */
  function Collected(buf: Bytes, pieces: seq<Bytes>, k: nat): Bytes
    requires k <= |pieces|
  {
    buf + Concat(pieces[..k])
  }

  lemma CollectedNext(buf: Bytes, pieces: seq<Bytes>, k: nat)
    requires k < |pieces|
    ensures Collected(buf, pieces, k + 1) == Collected(buf + pieces[0], pieces[1..], k)
    ensures Collected(buf, pieces, 0) == buf
  {
    assert pieces[..k + 1][0] == pieces[0] && pieces[..k + 1][1..] == pieces[1..][..k];
    AppendAssoc(buf, pieces[0], Concat(pieces[1..][..k]));
    assert pieces[..0] == [];
  }

  lemma EarlyShifts(mode: string, frame: Bytes, buf: Bytes, pieces: seq<Bytes>)
    requires pieces != [] && DecodeFrame(mode, buf).Err?
    ensures NothingDecodesEarly(mode, frame, buf, pieces)
            <==> NothingDecodesEarly(mode, frame, buf + pieces[0], pieces[1..])
  {
    var more, rest := buf + pieces[0], pieces[1..];
    if NothingDecodesEarly(mode, frame, buf, pieces) {
      forall k | 0 <= k <= |rest| && |Collected(more, rest, k)| < |frame|
        ensures DecodeFrame(mode, Collected(more, rest, k)).Err?
      {
        CollectedNext(buf, pieces, k);
        assert DecodeFrame(mode, Collected(buf, pieces, k + 1)).Err?;
      }
    }
    if NothingDecodesEarly(mode, frame, more, rest) {
      forall k | 0 <= k <= |pieces| && |Collected(buf, pieces, k)| < |frame|
        ensures DecodeFrame(mode, Collected(buf, pieces, k)).Err?
      {
        if k == 0 {
          CollectedNext(buf, pieces, 0);
        } else {
          CollectedNext(buf, pieces, k - 1);
          assert DecodeFrame(mode, Collected(more, rest, k - 1)).Err?;
        }
      }
    }
  }

  lemma {:induction false} OtherModesReadWhole(mode: string, frame: Bytes, f: Frame, buf: Bytes, pieces: seq<Bytes>)
    requires mode != "ascii" && DecodeFrame(mode, frame) == Ok(f) && |frame| <= MAX_FRAME_BYTES
    requires buf + Concat(pieces) == frame && |buf| < |frame| && DecodeFrame(mode, buf).Err?
    ensures ReadAll(mode, buf, pieces) == Ok(Received(frame, f)) <==> NothingDecodesEarly(mode, frame, buf, pieces)
    decreases |pieces|
  {
    assert buf + [] == buf;
    if pieces != [] {
      var more, rest := buf + pieces[0], pieces[1..];
      AppendAssoc(buf, pieces[0], Concat(rest));
      EarlyShifts(mode, frame, buf, pieces);
      if pieces[0] == [] {
        assert more == buf;
        OtherModesReadWhole(mode, frame, f, buf, rest);
      } else if |more| == |frame| {
        assert more == frame;
        assert NothingDecodesEarly(mode, frame, more, rest);
      } else if DecodeFrame(mode, more).Ok? {
        assert rest[..0] == [] && Collected(more, rest, 0) == more;
      } else {
        OtherModesReadWhole(mode, frame, f, more, rest);
      }
    }
  }

  /** Nothing longer than the buffer is ever returned. */
  lemma {:induction false} ReturnedFits(mode: string, buf: Bytes, pieces: seq<Bytes>)
    requires ReadAll(mode, buf, pieces).Ok?
    ensures |ReadAll(mode, buf, pieces).value.raw| <= MAX_FRAME_BYTES
    decreases |pieces|
  {
    var more := buf + pieces[0];
    if pieces[0] == [] {
      ReturnedFits(mode, buf, pieces[1..]);
    } else if Offer(mode, more).None? {
      ReturnedFits(mode, more, pieces[1..]);
    }
  }

  /**
   RTU frames have no end mark: the reader takes the first bytes that decode. So a frame that arrives
   alone is returned whole exactly when it fits the buffer and no part of it decodes at a moment when the port pauses.
   */
  lemma RtuReaderIff(unitId: bv8, pdu: Pdu, pieces: seq<Bytes>)
    requires unitId != 0 && Concat(pieces) == EncodeRtu(Payload(unitId, pdu))
    ensures ReadAll("rtu", [], pieces) == Ok(Received(Concat(pieces), Frame("rtu", unitId, pdu)))
            <==> |Concat(pieces)| <= MAX_FRAME_BYTES && NothingDecodesEarly("rtu", Concat(pieces), [], pieces)
  {
    var frame := Concat(pieces);
    assert [] + Concat(pieces) == frame;
    ModeNames();
    RtuRoundTrip(unitId, pdu);
    if |frame| <= MAX_FRAME_BYTES {
      OtherModesReadWhole("rtu", frame, Frame("rtu", unitId, pdu), [], pieces);
    } else if ReadAll("rtu", [], pieces).Ok? {
      ReturnedFits("rtu", [], pieces);
    }
  }

  /** A data unit whose encoding begins with the whole frame of a shorter one, trailer included. */
  function Wrapping(unitId: bv8, pdu: Pdu, extra: Bytes): Pdu {
    Pdu(pdu.code, EncodeRtu(Payload(unitId, pdu))[2..] + extra)
  }

  lemma WrappingBegins(unitId: bv8, pdu: Pdu, extra: Bytes) returns (rest: Bytes)
    ensures rest != []
    ensures EncodeRtu(Payload(unitId, Wrapping(unitId, pdu, extra))) == EncodeRtu(Payload(unitId, pdu)) + rest
  {
    var inner := EncodeRtu(Payload(unitId, pdu));
    var payload := Payload(unitId, Wrapping(unitId, pdu, extra));
    HeadOfTwo(inner, unitId, pdu.code, extra);
    rest := extra + [LowByte(Crc16(payload)), HighByte(Crc16(payload))];
    AppendAssoc(inner, extra, [LowByte(Crc16(payload)), HighByte(Crc16(payload))]);
  }

  lemma HeadOfTwo<T>(s: seq<T>, x: T, y: T, extra: seq<T>)
    requires |s| >= 2 && s[0] == x && s[1] == y
    ensures [x] + ([y] + (s[2..] + extra)) == s + extra
  {
  }

  /** How much one read of the port takes at most. */
  const READ_BYTES := 256

  lemma ConcatTwo(a: Bytes, b: Bytes)
    ensures Concat([a, b]) == a + b
  {
    assert [a, b][1..] == [b] && [b][1..] == [] && Concat([b]) == b + [] == b;
  }

  /** Every frame that one read can take is returned in the place of a longer one when the port pauses behind it. */
  lemma EarlyReturn(unitId: bv8, pdu: Pdu, extra: Bytes) returns (rest: Bytes)
    requires unitId != 0 && |EncodeRtu(Payload(unitId, pdu))| <= READ_BYTES
    ensures rest != []
    ensures var inner := EncodeRtu(Payload(unitId, pdu));
            && Concat([inner, rest]) == EncodeRtu(Payload(unitId, Wrapping(unitId, pdu, extra)))
            && ReadAll("rtu", [], [inner, rest]) == Ok(Received(inner, Frame("rtu", unitId, pdu)))
  {
    var inner := EncodeRtu(Payload(unitId, pdu));
    rest := WrappingBegins(unitId, pdu, extra);
    ConcatTwo(inner, rest);
    assert [] + inner == inner;
    ModeNames();
    RtuRoundTrip(unitId, pdu);
  }

  // ---------------------------------------------------------------------------------------------
  // Scanning registers
  // ---------------------------------------------------------------------------------------------

  type Word16 = x: int | 0 <= x < 0x1_0000

  const READ_HOLDING := 3
  const READ_INPUT := 4

  datatype ScanRequest = ScanRequest(code: nat, first: Word16, last: Word16, chunk: Word16)

  datatype ScanRange = ScanRange(address: Word16, quantity: Word16, failed: bool)

  datatype ScanValue = ScanValue(address: Word16, value: Word16)

  datatype ScanError = WrongFunction | EndBeforeStart

  datatype ScanResult = ScanResult(ranges: seq<ScanRange>, values: seq<ScanValue>)

  /** What the slave answers to a read of a quantity at an address: registers, or a failure. */
  type Slave = (Word16, Word16) -> Option<seq<Word16>>

  function Wrap(x: int): Word16 {
    x % 0x1_0000
  }

  /** The registers that are not zero, with the addresses they were read from. */
  function NonZero(address: Word16, registers: seq<Word16>): seq<ScanValue> {
    if registers == [] then []
    else
      var k := |registers| - 1;
      NonZero(address, registers[..k])
      + if registers[k] != 0 then [ScanValue(Wrap(address + k), registers[k])] else []
  }

  function ValuesOf(ranges: seq<ScanRange>, slave: Slave): seq<ScanValue> {
    if ranges == [] then []
    else
      var r := ranges[|ranges| - 1];
      ValuesOf(ranges[..|ranges| - 1], slave)
      + match slave(r.address, r.quantity) case None => [] case Some(regs) => NonZero(r.address, regs)
  }

  /** The ranges lie one behind the other from first up to, but not including, end. */
  ghost predicate Tiles(ranges: seq<ScanRange>, first: int, end: int) {
    if ranges == [] then first == end
    else
      var r := ranges[|ranges| - 1];
      r.quantity > 0 && r.address + r.quantity == end && Tiles(ranges[..|ranges| - 1], first, r.address)
  }

  function EffectiveChunk(chunk: Word16): Word16 {
    if chunk == 0 then 16 else if chunk > 125 then 125 else chunk
  }

  lemma RangeAppended(ranges: seq<ScanRange>, range: ScanRange, first: int, slave: Slave)
    requires Tiles(ranges, first, range.address) && range.quantity > 0
    ensures Tiles(ranges + [range], first, range.address + range.quantity)
    ensures ValuesOf(ranges + [range], slave) ==
            ValuesOf(ranges, slave)
            + match slave(range.address, range.quantity) case None => [] case Some(regs) => NonZero(range.address, regs)
  {
    assert (ranges + [range])[..|ranges|] == ranges;
  }

  ghost predicate MarksFailures(ranges: seq<ScanRange>, slave: Slave) {
    forall i :: 0 <= i < |ranges| ==> ranges[i].failed == slave(ranges[i].address, ranges[i].quantity).None?
  }

  method ScanRegisters(req: ScanRequest, slave: Slave) returns (r: Result<ScanResult, ScanError>)
    ensures r == Err(WrongFunction) <==> req.code !in {0, READ_HOLDING, READ_INPUT}
    ensures r == Err(EndBeforeStart) <==> req.code in {0, READ_HOLDING, READ_INPUT} && req.last < req.first
    ensures r.Ok? ==>
              var ranges := r.value.ranges;
              && Tiles(ranges, req.first, req.last + 1)
              && (forall i :: 0 <= i < |ranges| ==> 1 <= ranges[i].quantity <= 125)
              && (forall i :: 0 <= i < |ranges| - 1 ==> ranges[i].quantity == EffectiveChunk(req.chunk))
              && MarksFailures(ranges, slave)
              && r.value.values == ValuesOf(ranges, slave)
  {
    var code := if req.code == 0 then READ_HOLDING else req.code;
    if code != READ_HOLDING && code != READ_INPUT {
      return Err(WrongFunction);
    }
    if req.last < req.first {
      return Err(EndBeforeStart);
    }
    var ranges, values := ScanChunks(req.first, req.last, EffectiveChunk(req.chunk), slave);
    return Ok(ScanResult(ranges, values));
  }

  method ScanChunks(first: Word16, last: Word16, chunk: Word16, slave: Slave)
    returns (ranges: seq<ScanRange>, values: seq<ScanValue>)
    requires first <= last && 1 <= chunk <= 125
    ensures Tiles(ranges, first, last + 1)
    ensures forall i :: 0 <= i < |ranges| ==> 1 <= ranges[i].quantity <= 125
    ensures forall i :: 0 <= i < |ranges| - 1 ==> ranges[i].quantity == chunk
    ensures MarksFailures(ranges, slave) && values == ValuesOf(ranges, slave)
  {
    ranges, values := [], [];
    var address := first;
    while true
      invariant first <= address <= last
      invariant Tiles(ranges, first, address)
      invariant forall i :: 0 <= i < |ranges| ==> ranges[i].quantity == chunk
      invariant MarksFailures(ranges, slave) && values == ValuesOf(ranges, slave)
      decreases last - address
    {
      var remaining := last - address + 1;
      var quantity: Word16 := if chunk > remaining then remaining else chunk;
      assert 1 <= quantity <= chunk && (quantity == chunk || address + quantity == last + 1);
      var answer := slave(address, quantity);
      var range := ScanRange(address, quantity, answer.None?);
      RangeAppended(ranges, range, first, slave);
      ranges := ranges + [range];
      if answer.Some? {
        var found := CollectNonZero(address, answer.value);
        values := values + found;
      }
      var next := NextAddress(address, quantity);
      if next == 0 || next > last {
        break;
      }
      address := next;
    }
  }

  method NextAddress(address: Word16, quantity: Word16) returns (next: Word16)
    requires quantity > 0 && address + quantity <= 0x1_0000
    ensures next == if address + quantity == 0x1_0000 then 0 else address + quantity
  {
    next := Wrap(address + quantity);
  }

  method CollectNonZero(address: Word16, registers: seq<Word16>) returns (found: seq<ScanValue>)
    ensures found == NonZero(address, registers)
  {
    found := [];
    for i := 0 to |registers|
      invariant found == NonZero(address, registers[..i])
    {
      assert registers[..i + 1][..i] == registers[..i];
      if registers[i] != 0 {
        found := found + [ScanValue(Wrap(address + i), registers[i])];
      } else {
        assert found + [] == found;
      }
    }
    assert registers[..|registers|] == registers;
  }

  predicate Covers(r: ScanRange, a: int) {
    r.address <= a < r.address + r.quantity
  }

  /** Ranges that tile an interval cover each of its addresses once, and no other address. */
  lemma {:induction false} TilesCoverOnce(ranges: seq<ScanRange>, first: int, end: int, a: int)
    requires Tiles(ranges, first, end)
    ensures first <= end
    ensures first <= a < end <==> exists i :: 0 <= i < |ranges| && Covers(ranges[i], a)
    ensures forall i, j ::
              0 <= i < |ranges| && 0 <= j < |ranges| && Covers(ranges[i], a) && Covers(ranges[j], a) ==> i == j
    ensures forall i :: 0 <= i < |ranges| ==> ranges[i].address + ranges[i].quantity <= end
  {
    if ranges != [] {
      var n := |ranges| - 1;
      var before := ranges[..n];
      TilesCoverOnce(before, first, ranges[n].address, a);
      assert forall i :: 0 <= i < n ==> ranges[i] == before[i];
      if first <= a < end && !Covers(ranges[n], a) {
        var i :| 0 <= i < |before| && Covers(before[i], a);
        assert Covers(ranges[i], a);
      }
    }
  }
}
