/**
 Frames of the FECbus serial line (GB 4717-2024, Appendix C): encoding, decoding, and taking the first
 frame out of a buffer. The check value is the one that MODBUS uses.
 */
module FecbusFrame {
  import opened Wrappers
  import opened ModbusCrc

  const BOUNDARY: bv8 := 0x7E

  const MIN_FRAME_BYTES := 11

  const MAX_DATA_BYTES := 8

  datatype Frame = Frame(kind: bv8, target: bv8, priority: bv8, source: bv8, message: bv8, group: bv8, data: Bytes)

  datatype FrameError =
    | FrameTooShort
    | NoStartBoundary
    | NoEndBoundary
    | BadDataLength
    | LengthMismatch
    | CrcMismatch
    | BadType
    | BadTarget
    | BadPriority
    | BadSource
    | BadMessageNumber
    | BadGroup
    | ReservedFunction

  /** Functions with a name of their own in the standard's table C.2. */
  predicate IsNamedFunction(code: bv8) {
    code <= 7 || code == 15 || 17 <= code <= 20 || 33 <= code <= 45
  }

  predicate IsCustomFunction(code: bv8) {
    8 <= code <= 14 || 21 <= code <= 31 || 46 <= code <= 127
  }

  /** Everything in the table that is not reserved. */
  predicate IsFunctionAllowed(code: bv8) {
    IsNamedFunction(code) || IsCustomFunction(code)
  }

  function FieldError(f: Frame): Option<FrameError> {
    if f.kind != 0 && f.kind != 1 then Some(BadType)
    else if f.target > 63 then Some(BadTarget)
    else if f.priority > 3 then Some(BadPriority)
    else if f.source == 0 || f.source > 63 then Some(BadSource)
    else if f.message == 0 || f.message > 63 then Some(BadMessageNumber)
    else if f.group > 127 then Some(BadGroup)
    else if |f.data| < 1 || |f.data| > MAX_DATA_BYTES then Some(BadDataLength)
    else if f.group <= 1 && !IsFunctionAllowed(f.data[0]) then Some(ReservedFunction)
    else None
  }

  predicate ValidFields(f: Frame) {
    FieldError(f) == None
  }

  /** What the check value covers: the opening boundary, the fields and the data. */
  function Body(f: Frame): Bytes
    requires |f.data| <= MAX_DATA_BYTES
  {
    [BOUNDARY, f.kind, f.target, f.priority, f.source, f.message, f.group, |f.data| as bv8] + f.data
  }

  function Wire(f: Frame): Bytes
    requires |f.data| <= MAX_DATA_BYTES
  {
    var crc := Crc16(Body(f));
    Body(f) + [LowByte(crc), HighByte(crc), BOUNDARY]
  }

  method EncodeFrame(f: Frame) returns (r: Result<Bytes, FrameError>)
    ensures r == match FieldError(f) case Some(e) => Err(e) case None => Ok(Wire(f))
  {
    var error := FieldError(f);
    if error.Some? {
      return Err(error.value);
    }
    var body := [BOUNDARY, f.kind, f.target, f.priority, f.source, f.message, f.group, |f.data| as bv8] + f.data;
    var crc := ComputeCrc16(body);
    return Ok(body + [LowByte(crc), HighByte(crc), BOUNDARY]);
  }

  function Fields(raw: Bytes): Frame
    requires |raw| >= MIN_FRAME_BYTES
  {
    Frame(raw[1], raw[2], raw[3], raw[4], raw[5], raw[6], raw[8..|raw| - 3])
  }

  function Decoded(raw: Bytes): Result<Frame, FrameError> {
    if |raw| < MIN_FRAME_BYTES then Err(FrameTooShort)
    else if raw[0] != BOUNDARY then Err(NoStartBoundary)
    else if raw[|raw| - 1] != BOUNDARY then Err(NoEndBoundary)
    else
      var dlc := raw[7] as int;
      if dlc < 1 || dlc > MAX_DATA_BYTES then Err(BadDataLength)
      else if |raw| != 1 + 7 + dlc + 2 + 1 then Err(LengthMismatch)
      else if Word(raw[|raw| - 3], raw[|raw| - 2]) != Crc16(raw[..|raw| - 3]) then Err(CrcMismatch)
      else
        match FieldError(Fields(raw))
        case Some(e) => Err(e)
        case None => Ok(Fields(raw))
  }

  method DecodeFrame(raw: Bytes) returns (r: Result<Frame, FrameError>)
    ensures r == Decoded(raw)
  {
    if |raw| < MIN_FRAME_BYTES {
      return Err(FrameTooShort);
    }
    if raw[0] != BOUNDARY {
      return Err(NoStartBoundary);
    }
    if raw[|raw| - 1] != BOUNDARY {
      return Err(NoEndBoundary);
    }
    var dlc := raw[7] as int;
    if dlc < 1 || dlc > MAX_DATA_BYTES {
      return Err(BadDataLength);
    }
    if |raw| != 1 + 7 + dlc + 2 + 1 {
      return Err(LengthMismatch);
    }
    var want := ComputeCrc16(raw[..|raw| - 3]);
    if Word(raw[|raw| - 3], raw[|raw| - 2]) != want {
      return Err(CrcMismatch);
    }
    var frame := Frame(raw[1], raw[2], raw[3], raw[4], raw[5], raw[6], raw[8..8 + dlc]);
    var error := FieldError(frame);
    if error.Some? {
      return Err(error.value);
    }
    return Ok(frame);
  }

  // Round trip

  lemma SmallLength(n: nat)
    requires n <= MAX_DATA_BYTES
    ensures (n as bv8) as int == n
  {
  }

  lemma WireShape(f: Frame)
    requires |f.data| <= MAX_DATA_BYTES
    ensures |Wire(f)| == |f.data| + 11 && Wire(f)[..|Wire(f)| - 3] == Body(f)
    ensures Wire(f)[8..|Wire(f)| - 3] == f.data && Wire(f)[7] as int == |f.data|
    ensures Fields(Wire(f)) == f
  {
    SmallLength(|f.data|);
    assert Wire(f)[8..|Wire(f)| - 3] == Body(f)[8..];
  }

  /** Every frame with valid fields is decoded from its wire form. */
  lemma DecodesEncoding(f: Frame)
    requires ValidFields(f)
    ensures Decoded(Wire(f)) == Ok(f)
  {
    WireShape(f);
    WordOfBytes(Crc16(Body(f)));
  }

  /** Nothing but the wire forms of valid frames is decoded, so no two byte strings give the same frame. */
  lemma DecodesOnlyEncodings(raw: Bytes, f: Frame)
    ensures Decoded(raw) == Ok(f) <==> ValidFields(f) && raw == Wire(f)
  {
    if ValidFields(f) && raw == Wire(f) {
      DecodesEncoding(f);
    }
    if Decoded(raw) == Ok(f) {
      BodyOfRaw(raw);
      BytesOfWord(raw[|raw| - 3], raw[|raw| - 2]);
      LastThree(raw);
    }
  }

  lemma LastThree<T>(s: seq<T>)
    requires |s| >= 3
    ensures s == s[..|s| - 3] + [s[|s| - 3], s[|s| - 2], s[|s| - 1]]
  {
  }

  lemma BodyOfRaw(raw: Bytes)
    requires Decoded(raw).Ok?
    ensures |Fields(raw).data| == raw[7] as int && Body(Fields(raw)) == raw[..|raw| - 3]
  {
    LengthByte(raw[7], |Fields(raw).data|);
  }

  lemma LengthByte(b: bv8, n: nat)
    requires b as int == n && n <= MAX_DATA_BYTES
    ensures n as bv8 == b
  {
  }

  /** A change of one byte, or of two neighbouring bytes, anywhere in a frame makes decoding fail. */
  lemma ChangedBytesAreNoticed(f: Frame, raw: Bytes, at: nat)
    requires ValidFields(f) && |raw| == |Wire(f)| && raw != Wire(f)
    requires forall i :: 0 <= i < |raw| && i != at && i != at + 1 ==> raw[i] == Wire(f)[i]
    ensures Decoded(raw).Err?
  {
    if Decoded(raw).Ok? {
      var g := Decoded(raw).value;
      DecodesOnlyEncodings(raw, g);
      DifferentFrames(f, g, at);
    }
  }

  lemma DifferentFrames(f: Frame, g: Frame, at: nat)
    requires ValidFields(f) && ValidFields(g) && |Wire(f)| == |Wire(g)|
    requires forall i :: 0 <= i < |Wire(f)| && i != at && i != at + 1 ==> Wire(g)[i] == Wire(f)[i]
    ensures Wire(f) == Wire(g)
  {
    var n := |Wire(f)| - 1;
    var x, y := Wire(f)[..n], Wire(g)[..n];
    CheckedInside(f);
    CheckedInside(g);
    if x != y {
      assert at < n;
      ChangedBytesAreRejected(x, y, at);
    }
    assert Wire(f) == x + [BOUNDARY] && Wire(g) == y + [BOUNDARY];
  }

  lemma CheckedInside(f: Frame)
    requires ValidFields(f)
    ensures ChecksOut(Wire(f)[..|Wire(f)| - 1])
  {
    var inside := Wire(f)[..|Wire(f)| - 1];
    WireShape(f);
    WordOfBytes(Crc16(Body(f)));
    assert inside[..|inside| - 2] == Body(f);
  }

  // The first frame in a buffer

  /** Where the first boundary at or behind an index is, if there is one. */
  function BoundaryFrom(buf: Bytes, from: nat): (r: Option<nat>)
    requires from <= |buf|
    ensures r.Some? ==> from <= r.value < |buf| && buf[r.value] == BOUNDARY
    ensures forall i :: from <= i < (if r.Some? then r.value else |buf|) ==> buf[i] != BOUNDARY
    decreases |buf| - from
  {
    if from == |buf| then None
    else if buf[from] == BOUNDARY then Some(from)
    else BoundaryFrom(buf, from + 1)
  }

  method FindBoundary(buf: Bytes, from: nat) returns (r: Option<nat>)
    requires from <= |buf|
    ensures r == BoundaryFrom(buf, from)
  {
    for i := from to |buf|
      invariant BoundaryFrom(buf, from) == BoundaryFrom(buf, i)
    {
      if buf[i] == BOUNDARY {
        return Some(i);
      }
    }
    return None;
  }

  datatype Extraction =
    | Incomplete(rest: Bytes)
    | TooShort(rest: Bytes)
    | Complete(candidate: Bytes, rest: Bytes)

  function Extracted(buf: Bytes): Extraction {
    match BoundaryFrom(buf, 0)
    case None => Incomplete([])
    case Some(start) => ExtractedFrom(buf, start)
  }

  /** The same from the first boundary on. */
  function ExtractedFrom(buf: Bytes, start: nat): Extraction
    requires start < |buf|
  {
    match BoundaryFrom(buf, start + 1)
    case None => Incomplete(buf[start..])
    case Some(end) =>
      if end + 1 - start < MIN_FRAME_BYTES then TooShort(buf[end + 1..])
      else Complete(buf[start..end + 1], buf[end + 1..])
  }

  method ExtractFrame(buf: Bytes) returns (r: Extraction)
    ensures r == Extracted(buf)
  {
    var start := FindBoundary(buf, 0);
    if start.None? {
      return Incomplete([]);
    }
    r := ExtractFrom(buf, start.value);
  }

  method ExtractFrom(buf: Bytes, start: nat) returns (r: Extraction)
    requires start < |buf|
    ensures r == ExtractedFrom(buf, start)
  {
    if |buf| - start < 2 {
      return Incomplete(buf[start..]);
    }
    var end := FindBoundary(buf, start + 1);
    if end.None? {
      return Incomplete(buf[start..]);
    }
    if end.value + 1 - start < MIN_FRAME_BYTES {
      return TooShort(buf[end.value + 1..]);
    }
    return Complete(buf[start..end.value + 1], buf[end.value + 1..]);
  }

  predicate Quiet(s: Bytes) {
    BOUNDARY !in s
  }

  /** Two boundaries with none between them. */
  predicate Enclosed(s: Bytes) {
    |s| >= 2 && s[0] == BOUNDARY && s[|s| - 1] == BOUNDARY && Quiet(s[1..|s| - 1])
  }

  ghost predicate FirstEnclosed(buf: Bytes, noise: Bytes, candidate: Bytes, rest: Bytes) {
    Quiet(noise) && Enclosed(candidate) && buf == noise + candidate + rest
  }

  lemma FirstTwoEnclose(buf: Bytes, start: nat, end: nat)
    requires start < end < |buf| && buf[start] == BOUNDARY && buf[end] == BOUNDARY
    requires forall i :: 0 <= i < end && i != start ==> buf[i] != BOUNDARY
    ensures FirstEnclosed(buf, buf[..start], buf[start..end + 1], buf[end + 1..])
  {
    ThreeParts(buf, start, end + 1);
    EnclosedSlice(buf, start, end);
    QuietPrefix(buf, start);
  }

  lemma CandidateIsEnclosed(buf: Bytes) returns (noise: Bytes)
    requires Extracted(buf).Complete?
    ensures FirstEnclosed(buf, noise, Extracted(buf).candidate, Extracted(buf).rest)
  {
    var start := BoundaryFrom(buf, 0).value;
    noise := buf[..start];
    FirstTwoEnclose(buf, start, BoundaryFrom(buf, start + 1).value);
  }

  lemma EnclosedSlice(buf: Bytes, start: nat, end: nat)
    requires start < end < |buf| && buf[start] == BOUNDARY && buf[end] == BOUNDARY
    requires forall i :: start < i < end ==> buf[i] != BOUNDARY
    ensures Enclosed(buf[start..end + 1])
  {
    var s := buf[start..end + 1];
    assert forall i :: 0 < i < |s| - 1 ==> s[i] == buf[start + i];
  }

  lemma QuietPrefix(buf: Bytes, start: nat)
    requires start <= |buf| && forall i :: 0 <= i < start ==> buf[i] != BOUNDARY
    ensures Quiet(buf[..start])
  {
  }

  lemma ThreeParts<T>(s: seq<T>, a: nat, b: nat)
    requires a <= b <= |s|
    ensures s == s[..a] + s[a..b] + s[b..]
  {
  }

  /** A candidate is what the first two boundaries enclose. */
  lemma ExtractedIff(buf: Bytes, candidate: Bytes, rest: Bytes)
    ensures Extracted(buf) == Complete(candidate, rest) <==>
            |candidate| >= MIN_FRAME_BYTES && exists noise :: FirstEnclosed(buf, noise, candidate, rest)
  {
    if Extracted(buf) == Complete(candidate, rest) {
      var noise := CandidateIsEnclosed(buf);
    } else if noise :| FirstEnclosed(buf, noise, candidate, rest) {
      ExtractedBehind(noise, candidate, rest);
    }
  }

  lemma ExtractedBehind(noise: Bytes, candidate: Bytes, rest: Bytes)
    requires Quiet(noise) && Enclosed(candidate)
    ensures var buf := noise + candidate + rest;
            Extracted(buf) == if |candidate| < MIN_FRAME_BYTES then TooShort(rest) else Complete(candidate, rest)
  {
    var buf, n := noise + candidate + rest, |noise|;
    BoundaryIs(buf, 0, n);
    forall i | n + 1 <= i < n + |candidate| - 1
      ensures buf[i] != BOUNDARY
    {
      assert buf[i] == candidate[1..|candidate| - 1][i - n - 1];
    }
    BoundaryIs(buf, n + 1, n + |candidate| - 1);
    assert buf[n..n + |candidate|] == candidate && buf[n + |candidate|..] == rest;
  }

  lemma BoundaryIs(buf: Bytes, from: nat, at: nat)
    requires from <= at < |buf| && buf[at] == BOUNDARY && forall i :: from <= i < at ==> buf[i] != BOUNDARY
    ensures BoundaryFrom(buf, from) == Some(at)
  {
  }

  /** What is left over is the end of the buffer, and shorter than it after a frame or an error. */
  lemma RestIsSuffix(buf: Bytes)
    ensures var r := Extracted(buf);
            |r.rest| <= |buf| && r.rest == buf[|buf| - |r.rest|..] && (!r.Incomplete? ==> |r.rest| < |buf|)
  {
  }
}
