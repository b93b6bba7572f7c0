/**
 Request builders, the slave's response to a request, and the master's parser of responses
 (MODBUS Application Protocol Specification V1.1b3, sections 6.1 to 6.6, 6.11 and 6.12).
 What a master writes through them and then reads back is what it wrote.
 */
module ModbusPdu {
  import opened Wrappers
  import opened ModbusCrc
  import opened ModbusFraming
  import opened ModbusSession
  import opened ModbusDataModel

  const READ_COILS: bv8 := 0x01
  const READ_DISCRETE: bv8 := 0x02
  const READ_HOLDING_REGISTERS: bv8 := 0x03
  const READ_INPUT_REGISTERS: bv8 := 0x04
  const WRITE_COIL: bv8 := 0x05
  const WRITE_REGISTER: bv8 := 0x06
  const WRITE_COILS: bv8 := 0x0F
  const WRITE_REGISTERS: bv8 := 0x10
  const EXCEPTION_MASK: bv8 := 0x80

  const ILLEGAL_FUNCTION: bv8 := 0x01
  const ILLEGAL_VALUE: bv8 := 0x03

  datatype BuildError = UnsupportedFunction | NoQuantity | NoValues | TooManyValues

  datatype ParseError =
    | InvalidException
    | InvalidLength
    | ByteCountMismatch
    | UnsupportedResponse

  datatype Response =
    | Exception(code: bv8, exceptionCode: bv8)
    | Bits(code: bv8, bits: seq<bool>)
    | Registers(code: bv8, values: seq<Word16>)
    | Single(code: bv8, address: Word16, value: Word16)
    | Multiple(code: bv8, address: Word16, quantity: Word16)

  datatype SlaveStep = SlaveStep(tables: Tables, response: Pdu)

  // ---------------------------------------------------------------------------------------------
  // Builders
  // ---------------------------------------------------------------------------------------------

  function WordPair(first: Word16, second: Word16): Bytes {
    WordBytes(first) + WordBytes(second)
  }

  function BuildRead(code: bv8, address: Word16, quantity: Word16): Result<Pdu, BuildError> {
    if code !in {READ_COILS, READ_DISCRETE, READ_HOLDING_REGISTERS, READ_INPUT_REGISTERS} then Err(UnsupportedFunction)
    else if quantity == 0 then Err(NoQuantity)
    else Ok(Pdu(code, WordPair(address, quantity)))
  }

  function BuildWriteSingle(code: bv8, address: Word16, value: Word16): Result<Pdu, BuildError> {
    if code == WRITE_COIL then Ok(Pdu(code, WordPair(address, if value != 0 then 0xFF00 else 0)))
    else if code == WRITE_REGISTER then Ok(Pdu(code, WordPair(address, value)))
    else Err(UnsupportedFunction)
  }

  function BuildWriteCoils(address: Word16, values: seq<bool>): Result<Pdu, BuildError> {
    if |values| == 0 then Err(NoValues)
    else if |values| > 1968 then Err(TooManyValues)
    else
      var packed := Pack(values);
      Ok(Pdu(WRITE_COILS, WordPair(address, |values|) + ([Truncate(|packed|)] + packed)))
  }

  function BuildWriteRegisters(address: Word16, values: seq<Word16>): Result<Pdu, BuildError> {
    if |values| == 0 then Err(NoValues)
    else if |values| > 123 then Err(TooManyValues)
    else Ok(Pdu(WRITE_REGISTERS, WordPair(address, |values|) + ([Truncate(2 * |values|)] + RegisterBytes(values))))
  }

  // ---------------------------------------------------------------------------------------------
  // The slave
  // ---------------------------------------------------------------------------------------------

  function ExceptionPdu(code: bv8, exceptionCode: bv8): Pdu {
    Pdu(code | EXCEPTION_MASK, [exceptionCode])
  }

  function ParseAddressQuantity(data: Bytes): Option<(Word16, Word16)> {
    if |data| != 4 then None
    else
      var quantity := BeWord(data[2], data[3]);
      if quantity == 0 then None else Some((BeWord(data[0], data[1]), quantity))
  }

  function ParseCoils(data: Bytes): Option<(Word16, seq<bool>)> {
    if |data| < 6 then None
    else
      var quantity, byteCount := BeWord(data[2], data[3]), FromByte(data[4]);
      if quantity <= 0 || byteCount <= 0 || |data[5..]| != byteCount then None
      else
        var values := Unpack(data[5..]);
        if quantity > |values| then None else Some((BeWord(data[0], data[1]), values[..quantity]))
  }

  function ParseRegisters(data: Bytes): Option<(Word16, seq<Word16>)> {
    if |data| < 6 then None
    else
      var quantity, byteCount := BeWord(data[2], data[3]), FromByte(data[4]);
      if quantity <= 0 || byteCount != quantity * 2 || |data[5..]| != byteCount then None
      else Some((BeWord(data[0], data[1]), BytesToWords(data[5..])))
  }

  function BitsPdu(code: bv8, values: seq<bool>): Pdu {
    Pdu(code, [Truncate(|Pack(values)|)] + Pack(values))
  }

  function RegistersPdu(code: bv8, values: seq<Word16>): Pdu {
    Pdu(code, [Truncate(2 * |values|)] + RegisterBytes(values))
  }

  /** The response to a read, given what the addressed table holds. */
  function ReadResponse(t: Tables, request: Pdu): Pdu
    requires request.code in {READ_COILS, READ_DISCRETE, READ_HOLDING_REGISTERS, READ_INPUT_REGISTERS}
  {
    match ParseAddressQuantity(request.data)
    case None => ExceptionPdu(request.code, ILLEGAL_VALUE)
    case Some((address, quantity)) =>
      if request.code == READ_COILS then BitsPdu(request.code, ReadRange(t.coils, address, quantity, false))
      else if request.code == READ_DISCRETE then
        BitsPdu(request.code, ReadRange(t.discreteInputs, address, quantity, false))
      else if request.code == READ_HOLDING_REGISTERS then
        RegistersPdu(request.code, ReadRange(t.holdingRegisters, address, quantity, 0))
      else RegistersPdu(request.code, ReadRange(t.inputRegisters, address, quantity, 0))
  }

  function WriteSingleStep(t: Tables, request: Pdu): SlaveStep
    requires request.code in {WRITE_COIL, WRITE_REGISTER}
  {
    if |request.data| != 4 then SlaveStep(t, ExceptionPdu(request.code, ILLEGAL_VALUE))
    else
      var address, value := BeWord(request.data[0], request.data[1]), BeWord(request.data[2], request.data[3]);
      if request.code == WRITE_REGISTER then
        SlaveStep(t.(holdingRegisters := WriteRange(t.holdingRegisters, address, [value])), request)
      else if value != 0 && value != 0xFF00 then SlaveStep(t, ExceptionPdu(request.code, ILLEGAL_VALUE))
      else SlaveStep(t.(coils := WriteRange(t.coils, address, [value == 0xFF00])), request)
  }

  function WriteMultipleStep(t: Tables, request: Pdu): SlaveStep
    requires request.code in {WRITE_COILS, WRITE_REGISTERS}
  {
    if request.code == WRITE_COILS then
      match ParseCoils(request.data)
      case None => SlaveStep(t, ExceptionPdu(request.code, ILLEGAL_VALUE))
      case Some((address, values)) =>
        SlaveStep(t.(coils := WriteRange(t.coils, address, values)),
                  Pdu(request.code, WordPair(address, Wrap(|values|))))
    else
      match ParseRegisters(request.data)
      case None => SlaveStep(t, ExceptionPdu(request.code, ILLEGAL_VALUE))
      case Some((address, values)) =>
        SlaveStep(t.(holdingRegisters := WriteRange(t.holdingRegisters, address, values)),
                  Pdu(request.code, WordPair(address, Wrap(|values|))))
  }

  function Respond(t: Tables, request: Pdu): SlaveStep {
    if request.code & EXCEPTION_MASK != 0 then
      SlaveStep(t, ExceptionPdu(request.code & 0x7F, ILLEGAL_FUNCTION))
    else if request.code in {READ_COILS, READ_DISCRETE, READ_HOLDING_REGISTERS, READ_INPUT_REGISTERS} then
      SlaveStep(t, ReadResponse(t, request))
    else if request.code in {WRITE_COIL, WRITE_REGISTER} then WriteSingleStep(t, request)
    else if request.code in {WRITE_COILS, WRITE_REGISTERS} then WriteMultipleStep(t, request)
    else SlaveStep(t, ExceptionPdu(request.code, ILLEGAL_FUNCTION))
  }

  // ---------------------------------------------------------------------------------------------
  // The master's parser
  // ---------------------------------------------------------------------------------------------

  function ParseResponse(pdu: Pdu): Result<Response, ParseError> {
    var data := pdu.data;
    if pdu.code & EXCEPTION_MASK != 0 then
      if |data| != 1 then Err(InvalidException) else Ok(Exception(pdu.code & 0x7F, data[0]))
    else if pdu.code in {READ_COILS, READ_DISCRETE} then
      if |data| < 1 then Err(InvalidLength)
      else if |data[1..]| != FromByte(data[0]) then Err(ByteCountMismatch)
      else Ok(Bits(pdu.code, Unpack(data[1..])))
    else if pdu.code in {READ_HOLDING_REGISTERS, READ_INPUT_REGISTERS} then
      if |data| < 1 then Err(InvalidLength)
      else if FromByte(data[0]) % 2 != 0 || |data[1..]| != FromByte(data[0]) then Err(ByteCountMismatch)
      else Ok(Registers(pdu.code, BytesToWords(data[1..])))
    else if pdu.code in {WRITE_COIL, WRITE_REGISTER} then
      if |data| != 4 then Err(InvalidLength)
      else Ok(Single(pdu.code, BeWord(data[0], data[1]), BeWord(data[2], data[3])))
    else if pdu.code in {WRITE_COILS, WRITE_REGISTERS} then
      if |data| != 4 then Err(InvalidLength)
      else Ok(Multiple(pdu.code, BeWord(data[0], data[1]), BeWord(data[2], data[3])))
    else Err(UnsupportedResponse)
  }

  // ---------------------------------------------------------------------------------------------
  // The slave as it runs
  // ---------------------------------------------------------------------------------------------

  class DataModel {
    var coils: map<Word16, bool>
    var discreteInputs: map<Word16, bool>
    var inputRegisters: map<Word16, Word16>
    var holdingRegisters: map<Word16, Word16>

    constructor ()
      ensures Contents() == Tables(map[], map[], map[], map[])
    {
      coils, discreteInputs, inputRegisters, holdingRegisters := map[], map[], map[], map[];
    }

    function Contents(): Tables
      reads this
    {
      Tables(coils, discreteInputs, inputRegisters, holdingRegisters)
    }

    method WriteCoils(address: Word16, values: seq<bool>) returns (ok: bool)
      modifies `coils
      ensures ok <==> values != []
      ensures coils == WriteRange(old(coils), address, values)
    {
      if |values| == 0 {
        return false;
      }
      for i := 0 to |values|
        invariant coils == WriteRange(old(coils), address, values[..i])
      {
        assert values[..i + 1][..i] == values[..i];
        coils := coils[At(address, i) := values[i]];
      }
      assert values[..|values|] == values;
      return true;
    }

    method WriteHoldingRegisters(address: Word16, values: seq<Word16>) returns (ok: bool)
      modifies `holdingRegisters
      ensures ok <==> values != []
      ensures holdingRegisters == WriteRange(old(holdingRegisters), address, values)
    {
      if |values| == 0 {
        return false;
      }
      for i := 0 to |values|
        invariant holdingRegisters == WriteRange(old(holdingRegisters), address, values[..i])
      {
        assert values[..i + 1][..i] == values[..i];
        holdingRegisters := holdingRegisters[At(address, i) := values[i]];
      }
      assert values[..|values|] == values;
      return true;
    }

    /** A range of a table; a read of nothing is refused. */
    method ReadTable<T>(m: map<Word16, T>, address: Word16, quantity: Word16, zero: T) returns (values: Option<seq<T>>)
      ensures values == if quantity == 0 then None else Some(ReadRange(m, address, quantity, zero))
    {
      if quantity == 0 {
        return None;
      }
      var out := [];
      for i := 0 to quantity
        invariant out == ReadRange(m, address, quantity, zero)[..i]
      {
        out := out + [Lookup(m, At(address, i), zero)];
      }
      assert out == ReadRange(m, address, quantity, zero);
      return Some(out);
    }

    method BuildSlaveResponse(request: Pdu) returns (response: Pdu)
      modifies this
      ensures SlaveStep(Contents(), response) == Respond(old(Contents()), request)
    {
      var code := request.code;
      if code & EXCEPTION_MASK != 0 {
        return ExceptionPdu(code & 0x7F, ILLEGAL_FUNCTION);
      }
      if code in {READ_COILS, READ_DISCRETE, READ_HOLDING_REGISTERS, READ_INPUT_REGISTERS} {
        response := RespondToRead(request);
      } else if code in {WRITE_COIL, WRITE_REGISTER} {
        response := RespondToWriteSingle(request);
      } else if code in {WRITE_COILS, WRITE_REGISTERS} {
        response := RespondToWriteMultiple(request);
      } else {
        response := ExceptionPdu(code, ILLEGAL_FUNCTION);
      }
    }

    method RespondToRead(request: Pdu) returns (response: Pdu)
      requires request.code in {READ_COILS, READ_DISCRETE, READ_HOLDING_REGISTERS, READ_INPUT_REGISTERS}
      ensures response == ReadResponse(Contents(), request)
    {
      var parsed := ParseAddressQuantity(request.data);
      if parsed.None? {
        return ExceptionPdu(request.code, ILLEGAL_VALUE);
      }
      var (address, quantity) := parsed.value;
      if request.code == READ_COILS || request.code == READ_DISCRETE {
        var values := ReadTable(if request.code == READ_COILS then coils else discreteInputs, address, quantity, false);
        var packed := PackBits(values.value);
        response := Pdu(request.code, [Truncate(|packed|)] + packed);
      } else {
        var values := ReadTable(if request.code == READ_HOLDING_REGISTERS then holdingRegisters else inputRegisters,
                                address, quantity, 0);
        response := RegistersPdu(request.code, values.value);
      }
    }

    method RespondToWriteSingle(request: Pdu) returns (response: Pdu)
      requires request.code in {WRITE_COIL, WRITE_REGISTER}
      modifies `coils, `holdingRegisters
      ensures SlaveStep(Contents(), response) == WriteSingleStep(old(Contents()), request)
    {
      if |request.data| != 4 {
        return ExceptionPdu(request.code, ILLEGAL_VALUE);
      }
      var address, value := BeWord(request.data[0], request.data[1]), BeWord(request.data[2], request.data[3]);
      if request.code == WRITE_REGISTER {
        var _ := WriteHoldingRegisters(address, [value]);
        return request;
      }
      if value != 0 && value != 0xFF00 {
        return ExceptionPdu(request.code, ILLEGAL_VALUE);
      }
      var _ := WriteCoils(address, [value == 0xFF00]);
      return request;
    }

    method RespondToWriteMultiple(request: Pdu) returns (response: Pdu)
      requires request.code in {WRITE_COILS, WRITE_REGISTERS}
      modifies `coils, `holdingRegisters
      ensures SlaveStep(Contents(), response) == WriteMultipleStep(old(Contents()), request)
    {
      if request.code == WRITE_COILS {
        var parsed := ParseCoils(request.data);
        if parsed.None? {
          return ExceptionPdu(request.code, ILLEGAL_VALUE);
        }
        var (address, values) := parsed.value;
        var _ := WriteCoils(address, values);
        return Pdu(request.code, WordPair(address, Wrap(|values|)));
      }
      var parsed := ParseRegisters(request.data);
      if parsed.None? {
        return ExceptionPdu(request.code, ILLEGAL_VALUE);
      }
      var (address, values) := parsed.value;
      var _ := WriteHoldingRegisters(address, values);
      return Pdu(request.code, WordPair(address, Wrap(|values|)));
    }
  }

  // ---------------------------------------------------------------------------------------------
  // Round trips
  // ---------------------------------------------------------------------------------------------

  lemma WordPairParts(first: Word16, second: Word16, rest: Bytes)
    ensures var data := WordPair(first, second) + rest;
            |data| == 4 + |rest| && BeWord(data[0], data[1]) == first && BeWord(data[2], data[3]) == second
  {
    WordRoundTrip(first);
    WordRoundTrip(second);
  }

  lemma CountedRest(first: Word16, second: Word16, count: nat, rest: Bytes)
    requires count < 256
    ensures var data := WordPair(first, second) + ([Truncate(count)] + rest);
            |data| == 5 + |rest| && FromByte(data[4]) == count && data[5..] == rest
  {
    ByteOfOctet(count);
    DropFive(WordPair(first, second), Truncate(count), rest);
  }

  lemma DropFive<T>(four: seq<T>, x: T, rest: seq<T>)
    requires |four| == 4
    ensures (four + ([x] + rest))[4] == x && (four + ([x] + rest))[5..] == rest
  {
  }

  lemma ReadRequestParses(code: bv8, address: Word16, quantity: Word16)
    requires BuildRead(code, address, quantity).Ok?
    ensures ParseAddressQuantity(BuildRead(code, address, quantity).value.data) == Some((address, quantity))
  {
    WordPairParts(address, quantity, []);
    assert WordPair(address, quantity) + [] == WordPair(address, quantity);
  }

  lemma RegistersParse(address: Word16, values: seq<Word16>)
    requires 1 <= |values| <= 123
    ensures ParseRegisters(BuildWriteRegisters(address, values).value.data) == Some((address, values))
  {
    var rest := RegisterBytes(values);
    WordPairParts(address, |values|, [Truncate(2 * |values|)] + rest);
    CountedRest(address, |values|, 2 * |values|, rest);
    RegistersRoundTrip(values);
  }

  lemma CoilsParse(address: Word16, values: seq<bool>)
    requires 1 <= |values| <= 1968
    ensures ParseCoils(BuildWriteCoils(address, values).value.data) == Some((address, values))
  {
    var rest := Pack(values);
    WordPairParts(address, |values|, [Truncate(|rest|)] + rest);
    CountedRest(address, |values|, |rest|, rest);
    BitsRoundTrip(values);
  }

  lemma TruncatedCount(count: nat)
    ensures FromByte(Truncate(count)) == count % 256
  {
    ByteOfOctet(count % 256);
  }

  lemma RegisterResponseParts(code: bv8, count: bv8, rest: Bytes)
    requires code in {READ_HOLDING_REGISTERS, READ_INPUT_REGISTERS}
    ensures ParseResponse(Pdu(code, [count] + rest)) ==
            if FromByte(count) % 2 != 0 || |rest| != FromByte(count) then Err(ByteCountMismatch)
            else Ok(Registers(code, BytesToWords(rest)))
  {
    var data := [count] + rest;
    assert data[0] == count && data[1..] == rest;
  }

  lemma EvenCount(n: nat, count: nat)
    requires count == (2 * n) % 256
    ensures count % 2 == 0 && (count == 2 * n <==> n <= 127)
  {
  }

  lemma RegisterResponseCount(code: bv8, count: bv8, values: seq<Word16>)
    requires code in {READ_HOLDING_REGISTERS, READ_INPUT_REGISTERS}
    requires FromByte(count) == (2 * |values|) % 256
    ensures ParseResponse(Pdu(code, [count] + RegisterBytes(values))) ==
            if |values| <= 127 then Ok(Registers(code, values)) else Err(ByteCountMismatch)
  {
    RegisterResponseParts(code, count, RegisterBytes(values));
    EvenCount(|values|, FromByte(count));
    RegistersRoundTrip(values);
  }

  /** A register read response is understood exactly when it carries at most 127 registers. */
  lemma RegisterResponseIff(code: bv8, values: seq<Word16>)
    requires code in {READ_HOLDING_REGISTERS, READ_INPUT_REGISTERS} && |values| < 0x1_0000
    ensures |values| <= 127 ==> ParseResponse(RegistersPdu(code, values)) == Ok(Registers(code, values))
    ensures |values| > 127 ==> ParseResponse(RegistersPdu(code, values)) == Err(ByteCountMismatch)
  {
    TruncatedCount(2 * |values|);
    RegisterResponseCount(code, Truncate(2 * |values|), values);
  }

  /** A bit read response is understood exactly when it carries at most 2040 bits. */
  lemma BitResponseIff(code: bv8, values: seq<bool>)
    requires code in {READ_COILS, READ_DISCRETE} && |values| < 0x1_0000
    ensures |values| <= 2040 ==> ParseResponse(BitsPdu(code, values)) == Ok(Bits(code, Unpack(Pack(values))))
    ensures |values| > 2040 ==> ParseResponse(BitsPdu(code, values)) == Err(ByteCountMismatch)
  {
    TruncatedCount(|Pack(values)|);
    var data := [Truncate(|Pack(values)|)] + Pack(values);
    assert data[1..] == Pack(values);
  }

  /** Reading through builder, slave and parser succeeds exactly within the byte count's range. */
  lemma RegisterReadIff(t: Tables, code: bv8, address: Word16, quantity: Word16)
    requires code in {READ_HOLDING_REGISTERS, READ_INPUT_REGISTERS} && quantity > 0
    ensures var table := if code == READ_HOLDING_REGISTERS then t.holdingRegisters else t.inputRegisters;
            var step := Respond(t, BuildRead(code, address, quantity).value);
            && step.tables == t
            && (quantity <= 127 ==>
                  ParseResponse(step.response) == Ok(Registers(code, ReadRange(table, address, quantity, 0))))
            && (quantity > 127 ==> ParseResponse(step.response) == Err(ByteCountMismatch))
  {
    ReadRequestParses(code, address, quantity);
    var table := if code == READ_HOLDING_REGISTERS then t.holdingRegisters else t.inputRegisters;
    RegisterResponseIff(code, ReadRange(table, address, quantity, 0));
  }

  lemma BitReadIff(t: Tables, code: bv8, address: Word16, quantity: Word16)
    requires code in {READ_COILS, READ_DISCRETE} && quantity > 0
    ensures var table := if code == READ_COILS then t.coils else t.discreteInputs;
            var step := Respond(t, BuildRead(code, address, quantity).value);
            && step.tables == t
            && (quantity <= 2040 ==>
                  ParseResponse(step.response) ==
                  Ok(Bits(code, Unpack(Pack(ReadRange(table, address, quantity, false))))))
            && (quantity > 2040 ==> ParseResponse(step.response) == Err(ByteCountMismatch))
  {
    ReadRequestParses(code, address, quantity);
    var table := if code == READ_COILS then t.coils else t.discreteInputs;
    BitResponseIff(code, ReadRange(table, address, quantity, false));
  }

  /** Addresses outside the written range, modulo 65536, keep their entries. */
  ghost predicate OnlyRangeChanged<T(!new)>(before: map<Word16, T>, after: map<Word16, T>, address: Word16,
                                            quantity: nat, zero: T)
  {
    forall a: Word16 :: !InRange(a, address, quantity) ==>
                          (a in after <==> a in before) && Lookup(after, a, zero) == Lookup(before, a, zero)
  }

  lemma WriteChangesRange<T(!new)>(m: map<Word16, T>, address: Word16, values: seq<T>, zero: T)
    ensures OnlyRangeChanged(m, WriteRange(m, address, values), address, |values|, zero)
  {
    forall a: Word16 | !InRange(a, address, |values|)
      ensures (a in WriteRange(m, address, values) <==> a in m)
              && Lookup(WriteRange(m, address, values), a, zero) == Lookup(m, a, zero)
    {
      UntouchedAt(m, address, values, zero, a);
    }
  }

  lemma MultipleConfirmed(code: bv8, address: Word16, quantity: Word16)
    requires code in {WRITE_COILS, WRITE_REGISTERS}
    ensures ParseResponse(Pdu(code, WordPair(address, quantity))) == Ok(Multiple(code, address, quantity))
  {
    WordPairParts(address, quantity, []);
    assert WordPair(address, quantity) + [] == WordPair(address, quantity);
  }

  lemma WriteMultipleResponds(t: Tables, request: Pdu)
    requires request.code in {WRITE_COILS, WRITE_REGISTERS}
    ensures Respond(t, request) == WriteMultipleStep(t, request)
  {
  }

  lemma Unwrapped(n: nat)
    requires n < 0x1_0000
    ensures Wrap(n) == n
  {
  }

  lemma RegistersStored(t: Tables, data: Bytes, address: Word16, values: seq<Word16>)
    requires ParseRegisters(data) == Some((address, values)) && |values| < 0x1_0000
    ensures Respond(t, Pdu(WRITE_REGISTERS, data)) ==
            SlaveStep(t.(holdingRegisters := WriteRange(t.holdingRegisters, address, values)),
                      Pdu(WRITE_REGISTERS, WordPair(address, |values|)))
  {
    WriteMultipleResponds(t, Pdu(WRITE_REGISTERS, data));
    Unwrapped(|values|);
  }

  lemma CoilsStored(t: Tables, data: Bytes, address: Word16, values: seq<bool>)
    requires ParseCoils(data) == Some((address, values)) && |values| < 0x1_0000
    ensures Respond(t, Pdu(WRITE_COILS, data)) ==
            SlaveStep(t.(coils := WriteRange(t.coils, address, values)),
                      Pdu(WRITE_COILS, WordPair(address, |values|)))
  {
    WriteMultipleResponds(t, Pdu(WRITE_COILS, data));
    Unwrapped(|values|);
  }

  lemma RegistersWritten(t: Tables, address: Word16, values: seq<Word16>)
    requires 1 <= |values| <= 123
    ensures Respond(t, BuildWriteRegisters(address, values).value) ==
            SlaveStep(t.(holdingRegisters := WriteRange(t.holdingRegisters, address, values)),
                      Pdu(WRITE_REGISTERS, WordPair(address, |values|)))
  {
    RegistersParse(address, values);
    RegistersStored(t, BuildWriteRegisters(address, values).value.data, address, values);
  }

  lemma CoilsWritten(t: Tables, address: Word16, values: seq<bool>)
    requires 1 <= |values| <= 1968
    ensures Respond(t, BuildWriteCoils(address, values).value) ==
            SlaveStep(t.(coils := WriteRange(t.coils, address, values)),
                      Pdu(WRITE_COILS, WordPair(address, |values|)))
  {
    CoilsParse(address, values);
    CoilsStored(t, BuildWriteCoils(address, values).value.data, address, values);
  }

  /**
   Registers written by a master are confirmed, and reading the range back gives the very values.
   Nothing outside the range changes, in this table or in the others.
   */
  lemma WrittenRegistersReadBack(t: Tables, address: Word16, values: seq<Word16>)
    requires 1 <= |values| <= 123
    ensures var written := Respond(t, BuildWriteRegisters(address, values).value);
            && ParseResponse(written.response) == Ok(Multiple(WRITE_REGISTERS, address, |values|))
            && written.tables == t.(holdingRegisters := written.tables.holdingRegisters)
            && OnlyRangeChanged(t.holdingRegisters, written.tables.holdingRegisters, address, |values|, 0)
            && var readBack := Respond(written.tables, BuildRead(READ_HOLDING_REGISTERS, address, |values|).value);
            && readBack.tables == written.tables
            && ParseResponse(readBack.response) == Ok(Registers(READ_HOLDING_REGISTERS, values))
  {
    RegistersWritten(t, address, values);
    MultipleConfirmed(WRITE_REGISTERS, address, |values|);
    WriteChangesRange(t.holdingRegisters, address, values, 0);
    var after := t.(holdingRegisters := WriteRange(t.holdingRegisters, address, values));
    RegisterReadIff(after, READ_HOLDING_REGISTERS, address, |values|);
    ReadBack(t.holdingRegisters, address, values, 0);
  }

  /** A bit read response carries the values, and false where the last byte is filled up. */
  ghost predicate CarriesBits(r: Result<Response, ParseError>, values: seq<bool>) {
    && r.Ok? && r.value.Bits?
    && |r.value.bits| == 8 * ((|values| + 7) / 8)
    && r.value.bits[..|values|] == values
    && forall i :: |values| <= i < |r.value.bits| ==> !r.value.bits[i]
  }

  /** The same for coils; the bits that fill up the last byte read as false. */
  lemma WrittenCoilsReadBack(t: Tables, address: Word16, values: seq<bool>)
    requires 1 <= |values| <= 1968
    ensures var written := Respond(t, BuildWriteCoils(address, values).value);
            && ParseResponse(written.response) == Ok(Multiple(WRITE_COILS, address, |values|))
            && written.tables == t.(coils := written.tables.coils)
            && OnlyRangeChanged(t.coils, written.tables.coils, address, |values|, false)
            && var readBack := Respond(written.tables, BuildRead(READ_COILS, address, |values|).value);
            && readBack.tables == written.tables
            && CarriesBits(ParseResponse(readBack.response), values)
  {
    CoilsWritten(t, address, values);
    MultipleConfirmed(WRITE_COILS, address, |values|);
    WriteChangesRange(t.coils, address, values, false);
    var after := t.(coils := WriteRange(t.coils, address, values));
    BitReadIff(after, READ_COILS, address, |values|);
    ReadBack(t.coils, address, values, false);
    BitsRoundTrip(values);
  }

  lemma SingleParts(code: bv8, address: Word16, value: Word16)
    requires code in {WRITE_COIL, WRITE_REGISTER}
    ensures var data := WordPair(address, value);
            |data| == 4 && BeWord(data[0], data[1]) == address && BeWord(data[2], data[3]) == value
    ensures ParseResponse(Pdu(code, WordPair(address, value))) == Ok(Single(code, address, value))
  {
    WordPairParts(address, value, []);
    assert WordPair(address, value) + [] == WordPair(address, value);
  }

  lemma SingleStored(t: Tables, code: bv8, address: Word16, value: Word16)
    requires code in {WRITE_COIL, WRITE_REGISTER} && (code == WRITE_COIL ==> value == 0 || value == 0xFF00)
    ensures Respond(t, Pdu(code, WordPair(address, value))) ==
            SlaveStep(if code == WRITE_REGISTER
                      then t.(holdingRegisters := WriteRange(t.holdingRegisters, address, [value]))
                      else t.(coils := WriteRange(t.coils, address, [value == 0xFF00])),
                      Pdu(code, WordPair(address, value)))
  {
    SingleParts(code, address, value);
  }

  /** One register: the same, with the echo of the request as confirmation. */
  lemma WrittenRegisterReadsBack(t: Tables, address: Word16, value: Word16)
    ensures var written := Respond(t, BuildWriteSingle(WRITE_REGISTER, address, value).value);
            && ParseResponse(written.response) == Ok(Single(WRITE_REGISTER, address, value))
            && written.tables == t.(holdingRegisters := written.tables.holdingRegisters)
            && OnlyRangeChanged(t.holdingRegisters, written.tables.holdingRegisters, address, 1, 0)
            && ParseResponse(Respond(written.tables, BuildRead(READ_HOLDING_REGISTERS, address, 1).value).response)
               == Ok(Registers(READ_HOLDING_REGISTERS, [value]))
  {
    SingleParts(WRITE_REGISTER, address, value);
    SingleStored(t, WRITE_REGISTER, address, value);
    WriteChangesRange(t.holdingRegisters, address, [value], 0);
    var after := t.(holdingRegisters := WriteRange(t.holdingRegisters, address, [value]));
    RegisterReadIff(after, READ_HOLDING_REGISTERS, address, 1);
    ReadBack(t.holdingRegisters, address, [value], 0);
  }

  /** One coil: any value but zero switches it on. */
  lemma WrittenCoilReadsBack(t: Tables, address: Word16, value: Word16)
    ensures var written := Respond(t, BuildWriteSingle(WRITE_COIL, address, value).value);
            && ParseResponse(written.response) == Ok(Single(WRITE_COIL, address, if value != 0 then 0xFF00 else 0))
            && written.tables == t.(coils := written.tables.coils)
            && OnlyRangeChanged(t.coils, written.tables.coils, address, 1, false)
            && CarriesBits(ParseResponse(Respond(written.tables, BuildRead(READ_COILS, address, 1).value).response),
                           [value != 0])
  {
    var sent := if value != 0 then 0xFF00 else 0;
    SingleParts(WRITE_COIL, address, sent);
    SingleStored(t, WRITE_COIL, address, sent);
    WriteChangesRange(t.coils, address, [value != 0], false);
    var after := t.(coils := WriteRange(t.coils, address, [value != 0]));
    BitReadIff(after, READ_COILS, address, 1);
    ReadBack(t.coils, address, [value != 0], false);
    BitsRoundTrip([value != 0]);
  }

  /** A request that is answered with an exception changes nothing. */
  lemma ExceptionsChangeNothing(t: Tables, request: Pdu)
    requires Respond(t, request).response.code & EXCEPTION_MASK != 0
    ensures Respond(t, request).tables == t
    ensures var r := ParseResponse(Respond(t, request).response); r.Ok? && r.value.Exception?
  {
  }
}
