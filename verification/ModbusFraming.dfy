/**
 Serial framing of MODBUS protocol data units: RTU with CRC-16 (MODBUS over Serial Line
 Specification V1.02, section 2.5.1) and ASCII with LRC (section 2.5.2), and the session reader that
 assembles a frame from the pieces a port delivers.
 */
module ModbusFraming {
  import opened Wrappers
  import opened Ascii
  import opened ModbusCrc

  datatype Pdu = Pdu(code: bv8, data: Bytes)

  datatype Frame = Frame(mode: string, unitId: bv8, pdu: Pdu)

  datatype FrameError =
    | BadUnitId
    | UnsupportedMode
    | TooShort
    | CrcMismatch
    | BadDelimiters
    | BadHexLength
    | BadHexDigit
    | LrcMismatch

  function PduBytes(pdu: Pdu): Bytes {
    [pdu.code] + pdu.data
  }

  function NormalMode(mode: string): string {
    if mode == "" then "rtu" else Lower(mode)
  }

  // ---------------------------------------------------------------------------------------------
  // LRC and hexadecimal text
  // ---------------------------------------------------------------------------------------------

  function Sum(data: Bytes): bv8 {
    if data == [] then 0 else Sum(data[..|data| - 1]) + data[|data| - 1]
  }

  function Lrc(data: Bytes): bv8 {
    0 - Sum(data)
  }

  method ComputeLrc(data: Bytes) returns (lrc: bv8)
    ensures lrc == Lrc(data)
  {
    var sum: bv8 := 0;
    for i := 0 to |data|
      invariant sum == Sum(data[..i])
    {
      assert data[..i + 1][..i] == data[..i];
      sum := sum + data[i];
    }
    assert data[..|data|] == data;
    return 0 - sum;
  }

  const COLON: bv8 := 0x3A
  const CR: bv8 := 0x0D
  const LF: bv8 := 0x0A

  function HexDigit(n: bv8): bv8 {
    if n < 10 then 0x30 + n else 0x37 + n
  }

  function HexValue(c: bv8): Option<bv8> {
    if 0x30 <= c <= 0x39 then Some(c - 0x30)
    else if 0x41 <= c <= 0x46 then Some(c - 0x37)
    else if 0x61 <= c <= 0x66 then Some(c - 0x57)
    else None
  }

  /** Two upper-case digits for each byte. */
  function EncodeHex(data: Bytes): (text: Bytes)
    ensures |text| == 2 * |data|
  {
    if data == [] then [] else [HexDigit(data[0] >> 4), HexDigit(data[0] & 0x0F)] + EncodeHex(data[1..])
  }

  function JoinNibbles(high: bv8, low: bv8): bv8 {
    (high << 4) | low
  }

  /** Digits of either case; nothing when one is no digit. */
  function DecodeHex(text: Bytes): (data: Option<Bytes>)
    requires |text| % 2 == 0
    ensures data.Some? ==> 2 * |data.value| == |text|
  {
    if text == [] then Some([])
    else
      match (HexValue(text[0]), HexValue(text[1]), DecodeHex(text[2..]))
      case (Some(high), Some(low), Some(rest)) => Some([JoinNibbles(high, low)] + rest)
      case _ => None
  }

  // ---------------------------------------------------------------------------------------------
  // Frames
  // ---------------------------------------------------------------------------------------------

  function Payload(unitId: bv8, pdu: Pdu): Bytes {
    [unitId] + PduBytes(pdu)
  }

  function EncodeRtu(payload: Bytes): Bytes {
    payload + [LowByte(Crc16(payload)), HighByte(Crc16(payload))]
  }

  function EncodeAscii(payload: Bytes): Bytes {
    [COLON] + EncodeHex(payload + [Lrc(payload)]) + [CR, LF]
  }

  function EncodeFrame(mode: string, unitId: bv8, pdu: Pdu): Result<Bytes, FrameError> {
    if unitId == 0 then Err(BadUnitId)
    else if NormalMode(mode) == "rtu" then Ok(EncodeRtu(Payload(unitId, pdu)))
    else if NormalMode(mode) == "ascii" then Ok(EncodeAscii(Payload(unitId, pdu)))
    else Err(UnsupportedMode)
  }

  function FromPayload(mode: string, payload: Bytes): Result<Frame, FrameError> {
    if |payload| < 2 then Err(TooShort)
    else Ok(Frame(mode, payload[0], Pdu(payload[1], payload[2..])))
  }

  function DecodeRtu(frame: Bytes): Result<Frame, FrameError> {
    if |frame| < 4 then Err(TooShort)
    else if !ChecksOut(frame) then Err(CrcMismatch)
    else FromPayload("rtu", frame[..|frame| - 2])
  }

  predicate Delimited(frame: Bytes) {
    |frame| >= 3 && frame[0] == COLON && frame[|frame| - 2] == CR && frame[|frame| - 1] == LF
  }

  function DecodeAscii(frame: Bytes): Result<Frame, FrameError> {
    if !Delimited(frame) then Err(BadDelimiters)
    else
      var text := frame[1..|frame| - 2];
      if |text| < 6 || |text| % 2 != 0 then Err(BadHexLength)
      else
        match DecodeHex(text)
        case None => Err(BadHexDigit)
        case Some(body) =>
          if body[|body| - 1] != Lrc(body[..|body| - 1]) then Err(LrcMismatch)
          else FromPayload("ascii", body[..|body| - 1])
  }

  function DecodeFrame(mode: string, frame: Bytes): Result<Frame, FrameError> {
    if NormalMode(mode) == "rtu" then DecodeRtu(frame)
    else if NormalMode(mode) == "ascii" then DecodeAscii(frame)
    else Err(UnsupportedMode)
  }

  // ---------------------------------------------------------------------------------------------
  // Round trips
  // ---------------------------------------------------------------------------------------------

  lemma NibblesRoundTrip(b: bv8)
    ensures HexValue(HexDigit(b >> 4)) == Some(b >> 4) && HexValue(HexDigit(b & 0x0F)) == Some(b & 0x0F)
    ensures JoinNibbles(b >> 4, b & 0x0F) == b
  {
  }

  lemma {:induction false} HexRoundTrip(data: Bytes)
    ensures DecodeHex(EncodeHex(data)) == Some(data)
  {
    if data != [] {
      NibblesRoundTrip(data[0]);
      HexRoundTrip(data[1..]);
      var text := EncodeHex(data);
      assert text[0] == HexDigit(data[0] >> 4) && text[1] == HexDigit(data[0] & 0x0F);
      DropTwo(HexDigit(data[0] >> 4), HexDigit(data[0] & 0x0F), EncodeHex(data[1..]));
      HeadAndRest(data);
    }
  }

  lemma DropTwo<T>(x: T, y: T, rest: seq<T>)
    ensures ([x, y] + rest)[2..] == rest
  {
  }

  lemma HeadAndRest<T>(a: seq<T>)
    requires a != []
    ensures a == [a[0]] + a[1..]
  {
  }

  lemma Delimiting<T>(first: T, text: seq<T>, x: T, y: T)
    ensures ([first] + text + [x, y])[1..|text| + 1] == text
  {
  }

  lemma ButLast<T>(a: seq<T>, x: T)
    ensures (a + [x])[..|a|] == a && (a + [x])[|a|] == x
  {
  }

  lemma ButLastTwo<T>(a: seq<T>, x: T, y: T)
    ensures (a + [x, y])[..|a|] == a && (a + [x, y])[|a|] == x && (a + [x, y])[|a| + 1] == y
  {
  }

  lemma PayloadParts(mode: string, unitId: bv8, pdu: Pdu)
    ensures FromPayload(mode, Payload(unitId, pdu)) == Ok(Frame(mode, unitId, pdu))
  {
    var p := Payload(unitId, pdu);
    assert p[0] == unitId && p[1] == pdu.code;
    assert p == [unitId, pdu.code] + pdu.data;
    DropTwo(unitId, pdu.code, pdu.data);
  }

  lemma RtuRoundTrip(unitId: bv8, pdu: Pdu)
    ensures DecodeRtu(EncodeRtu(Payload(unitId, pdu))) == Ok(Frame("rtu", unitId, pdu))
  {
    var payload := Payload(unitId, pdu);
    PayloadParts("rtu", unitId, pdu);
    WordOfBytes(Crc16(payload));
    ButLastTwo(payload, LowByte(Crc16(payload)), HighByte(Crc16(payload)));
  }

  lemma AsciiRoundTrip(unitId: bv8, pdu: Pdu)
    ensures DecodeAscii(EncodeAscii(Payload(unitId, pdu))) == Ok(Frame("ascii", unitId, pdu))
  {
    var payload := Payload(unitId, pdu);
    PayloadParts("ascii", unitId, pdu);
    var body := payload + [Lrc(payload)];
    HexRoundTrip(body);
    Delimiting(COLON, EncodeHex(body), CR, LF);
    ButLast(payload, Lrc(payload));
  }

  lemma ModeNames()
    ensures NormalMode("rtu") == "rtu" && NormalMode("ascii") == "ascii" && "rtu" != "ascii"
  {
    LowerFixes("rtu");
    LowerFixes("ascii");
    assert |"rtu"| != |"ascii"|;
  }

  /** Decoding gives back the unit and the data unit, in either mode and for every length. */
  lemma FrameRoundTrip(mode: string, unitId: bv8, pdu: Pdu)
    requires unitId != 0 && NormalMode(mode) in {"rtu", "ascii"}
    ensures EncodeFrame(mode, unitId, pdu).Ok?
    ensures DecodeFrame(mode, EncodeFrame(mode, unitId, pdu).value) == Ok(Frame(NormalMode(mode), unitId, pdu))
  {
    RtuRoundTrip(unitId, pdu);
    AsciiRoundTrip(unitId, pdu);
    ModeNames();
  }

  /** What RTU decoding accepts is exactly what RTU encoding produces, but for the unit id zero. */
  lemma RtuDecodesOnlyEncodings(frame: Bytes)
    requires DecodeRtu(frame).Ok?
    ensures var f := DecodeRtu(frame).value; frame == EncodeRtu(Payload(f.unitId, f.pdu))
  {
    var payload := frame[..|frame| - 2];
    var f := DecodeRtu(frame).value;
    BytesOfWord(frame[|frame| - 2], frame[|frame| - 1]);
    SplitLastTwo(frame);
    PayloadOf("rtu", payload);
  }

  lemma PayloadOf(mode: string, payload: Bytes)
    requires |payload| >= 2
    ensures var f := FromPayload(mode, payload).value; Payload(f.unitId, f.pdu) == payload
  {
    FirstTwo(payload);
  }

  lemma FirstTwo<T>(a: seq<T>)
    requires |a| >= 2
    ensures [a[0]] + ([a[1]] + a[2..]) == a
  {
  }

  // ---------------------------------------------------------------------------------------------
  // What corrupted frames do
  // ---------------------------------------------------------------------------------------------

  /** A corrupted RTU frame is rejected when the change is a short burst or flips an odd number of bits. */
  lemma CorruptedRtuIsRejected(frame: Bytes, changed: Bytes)
    requires DecodeRtu(frame).Ok? && |changed| == |frame| && changed != frame
    requires BitRegister.IsBurst(ErrorBits(frame, changed), 16) || BitRegister.Ones(ErrorBits(frame, changed)) % 2 == 1
    ensures DecodeRtu(changed) == Err(CrcMismatch)
  {
    if BitRegister.IsBurst(ErrorBits(frame, changed), 16) {
      BurstIsRejected(frame, changed);
    } else {
      OddFlipsAreRejected(frame, changed);
    }
  }

  /** Changing one byte or two neighbouring bytes, check value included, is always noticed. */
  lemma ChangedRtuBytesAreRejected(frame: Bytes, changed: Bytes, at: nat)
    requires DecodeRtu(frame).Ok? && |changed| == |frame| && changed != frame && at < |frame|
    requires forall i :: 0 <= i < |frame| && i != at && i != at + 1 ==> changed[i] == frame[i]
    ensures DecodeRtu(changed) == Err(CrcMismatch)
  {
    ChangedBytesAreRejected(frame, changed, at);
  }

  lemma CancelRight(s: bv8, t: bv8, z: bv8)
    requires s + z == t + z
    ensures s == t
  {
  }

  lemma CancelLeft(s: bv8, x: bv8, y: bv8)
    requires s + x == s + y
    ensures x == y
  {
  }

  lemma SamePrefix<T>(a: seq<T>, b: seq<T>, n: nat)
    requires n <= |a| && n <= |b| && forall i :: 0 <= i < n ==> a[i] == b[i]
    ensures a[..n] == b[..n]
  {
  }

  /** Bodies that differ in one byte at most and have the same sum do not differ. */
  lemma {:induction false} SumDecides(a: Bytes, b: Bytes, at: nat)
    requires |a| == |b| && at < |a| && Sum(a) == Sum(b)
    requires forall i :: 0 <= i < |a| && i != at ==> a[i] == b[i]
    ensures a[at] == b[at]
    decreases |a|
  {
    var n := |a| - 1;
    if at < n {
      CancelRight(Sum(a[..n]), Sum(b[..n]), a[n]);
      SumDecides(a[..n], b[..n], at);
    } else {
      SamePrefix(a, b, n);
      SumOfLast(a, b);
    }
  }

  lemma SumOfLast(a: Bytes, b: Bytes)
    requires |a| == |b| > 0 && Sum(a) == Sum(b) && a[..|a| - 1] == b[..|b| - 1]
    ensures a[|a| - 1] == b[|b| - 1]
  {
    CancelLeft(Sum(a[..|a| - 1]), a[|a| - 1], b[|b| - 1]);
  }

  /** The LRC closes a body when everything adds up to zero. */
  predicate LrcCloses(body: Bytes)
    requires body != []
  {
    body[|body| - 1] == Lrc(body[..|body| - 1])
  }

  lemma LrcClosesIffZero(body: Bytes)
    requires body != []
    ensures LrcCloses(body) <==> Sum(body) == 0
  {
    NegationCloses(Sum(body[..|body| - 1]), body[|body| - 1]);
  }

  lemma NegationCloses(s: bv8, x: bv8)
    ensures x == 0 - s <==> s + x == 0
  {
  }

  function AsciiFrame(body: Bytes): Bytes {
    [COLON] + EncodeHex(body) + [CR, LF]
  }

  lemma AsciiAccepts(body: Bytes)
    requires |body| >= 3
    ensures LrcCloses(body) ==> DecodeAscii(AsciiFrame(body)).Ok?
    ensures !LrcCloses(body) ==> DecodeAscii(AsciiFrame(body)) == Err(LrcMismatch)
  {
    HexRoundTrip(body);
    Delimiting(COLON, EncodeHex(body), CR, LF);
  }

  /** An ASCII frame in which one byte of the body, check value included, is changed is rejected. */
  lemma ChangedAsciiByteIsRejected(body: Bytes, changed: Bytes, at: nat)
    requires |body| == |changed| >= 3 && at < |body| && body[at] != changed[at]
    requires forall i :: 0 <= i < |body| && i != at ==> body[i] == changed[i]
    requires DecodeAscii(AsciiFrame(body)).Ok?
    ensures DecodeAscii(AsciiFrame(changed)) == Err(LrcMismatch)
  {
    AsciiAccepts(body);
    AsciiAccepts(changed);
    LrcClosesIffZero(body);
    LrcClosesIffZero(changed);
    if LrcCloses(changed) {
      SumDecides(body, changed, at);
    }
  }
}
