/**
 The MODBUS application layer (MODBUS Application Protocol Specification V1.1b3, sections 6.1 to 6.6,
 6.11 and 6.12): request builders, the slave's four tables, its response to a request, and the
 master's parser of responses. What a master writes and then reads back is what it wrote.
 */
module ModbusDataModel {
  import opened Wrappers
  import opened ModbusCrc
  import opened ModbusFraming
  import opened ModbusSession

  // ---------------------------------------------------------------------------------------------
  // Bytes, words and bits
  // ---------------------------------------------------------------------------------------------

  type Octet = x: int | 0 <= x < 256

  function ToByte(n: Octet): bv8 {
    n as bv8
  }

  function Truncate(n: nat): bv8 {
    ToByte(n % 256)
  }

  function FromByte(b: bv8): Octet {
    b as int
  }

  lemma NextByte(b: bv8)
    requires b != 255
    ensures (b + 1) as int == b as int + 1
  {
  }

  lemma {:induction false} SomeByteIs(n: nat) returns (b: bv8)
    requires n < 256
    ensures b as int == n
  {
    if n == 0 {
      b := 0;
    } else {
      b := SomeByteIs(n - 1);
      NextByte(b);
      b := b + 1;
    }
  }

  lemma ByteOfInt(n: int)
    requires 0 <= n < 256
    ensures (n as bv8) as int == n
  {
    var b := SomeByteIs(n);
  }

  lemma ByteOfOctet(n: Octet)
    ensures FromByte(ToByte(n)) == n
  {
    ByteOfInt(n);
  }

  function WordBytes(w: Word16): Bytes {
    [ToByte(w / 256), ToByte(w % 256)]
  }

  function BeWord(high: bv8, low: bv8): Word16 {
    256 * FromByte(high) + FromByte(low)
  }

  lemma WordRoundTrip(w: Word16)
    ensures BeWord(WordBytes(w)[0], WordBytes(w)[1]) == w
  {
    ByteOfOctet(w / 256);
    ByteOfOctet(w % 256);
  }

  function RegisterBytes(values: seq<Word16>): (r: Bytes)
    ensures |r| == 2 * |values|
  {
    if values == [] then [] else WordBytes(values[0]) + RegisterBytes(values[1..])
  }

  /** Pairs of bytes as words; a last odd byte is dropped. */
  function BytesToWords(data: Bytes): (r: seq<Word16>)
    ensures |r| == |data| / 2
  {
    if |data| < 2 then [] else [BeWord(data[0], data[1])] + BytesToWords(data[2..])
  }

  lemma {:induction false} RegistersRoundTrip(values: seq<Word16>)
    ensures BytesToWords(RegisterBytes(values)) == values
  {
    if values != [] {
      var w := WordBytes(values[0]);
      WordRoundTrip(values[0]);
      RegistersRoundTrip(values[1..]);
      DropTwo(w[0], w[1], RegisterBytes(values[1..]));
      assert RegisterBytes(values) == [w[0], w[1]] + RegisterBytes(values[1..]);
    }
  }

  function Mask(k: nat): bv8
    requires k < 8
  {
    if k == 0 then 0x01 else if k == 1 then 0x02 else if k == 2 then 0x04 else if k == 3 then 0x08
    else if k == 4 then 0x10 else if k == 5 then 0x20 else if k == 6 then 0x40 else 0x80
  }

  predicate BitSet(b: bv8, k: nat)
    requires k < 8
  {
    b & Mask(k) != 0
  }

  lemma BitsOfOr(b: bv8, k: nat, j: nat)
    requires k < 8 && j < 8
    ensures BitSet(b | Mask(k), j) <==> BitSet(b, j) || j == k
  {
  }

  lemma NoBitsOfZero(j: nat)
    requires j < 8
    ensures !BitSet(0, j)
  {
  }

  lemma ByteFromBits(b: bv8, c: bv8)
    requires forall j :: 0 <= j < 8 ==> BitSet(b, j) == BitSet(c, j)
    ensures b == c
  {
    assert BitSet(b, 0) == BitSet(c, 0);
    assert BitSet(b, 1) == BitSet(c, 1);
    assert BitSet(b, 2) == BitSet(c, 2);
    assert BitSet(b, 3) == BitSet(c, 3);
    assert BitSet(b, 4) == BitSet(c, 4);
    assert BitSet(b, 5) == BitSet(c, 5);
    assert BitSet(b, 6) == BitSet(c, 6);
    assert BitSet(b, 7) == BitSet(c, 7);
    SameMaskedBits(b, c);
  }

  lemma SameMaskedBits(b: bv8, c: bv8)
    requires (b & 0x01 != 0) == (c & 0x01 != 0)
    requires (b & 0x02 != 0) == (c & 0x02 != 0)
    requires (b & 0x04 != 0) == (c & 0x04 != 0)
    requires (b & 0x08 != 0) == (c & 0x08 != 0)
    requires (b & 0x10 != 0) == (c & 0x10 != 0)
    requires (b & 0x20 != 0) == (c & 0x20 != 0)
    requires (b & 0x40 != 0) == (c & 0x40 != 0)
    requires (b & 0x80 != 0) == (c & 0x80 != 0)
    ensures b == c
  {
  }

  predicate BitAt(values: seq<bool>, i: nat) {
    i < |values| && values[i]
  }

  /** Packed bits: the first value is the lowest bit of the first byte, missing values are zero. */
  ghost predicate IsPacked(out: Bytes, values: seq<bool>) {
    && |out| == (|values| + 7) / 8
    && forall i :: 0 <= i < 8 * |out| ==> BitSet(out[i / 8], i % 8) == BitAt(values, i)
  }

  /** The byte that holds values from .. from + k in its lowest k bits. */
  function PackByte(values: seq<bool>, from: nat, k: nat): bv8
    requires k <= 8
  {
    if k == 0 then 0
    else if BitAt(values, from + k - 1) then PackByte(values, from, k - 1) | Mask(k - 1)
    else PackByte(values, from, k - 1)
  }

  function Pack(values: seq<bool>): (out: Bytes)
    ensures |out| == (|values| + 7) / 8
  {
    seq((|values| + 7) / 8, i requires 0 <= i => PackByte(values, 8 * i, 8))
  }

  function Unpack(data: Bytes): (out: seq<bool>)
    ensures |out| == 8 * |data|
  {
    seq(8 * |data|, i requires 0 <= i < 8 * |data| => BitSet(data[i / 8], i % 8))
  }

  lemma {:induction false} PackByteBits(values: seq<bool>, from: nat, k: nat, j: nat)
    requires k <= 8 && j < 8
    ensures BitSet(PackByte(values, from, k), j) <==> j < k && BitAt(values, from + j)
  {
    if k == 0 {
      NoBitsOfZero(j);
    } else {
      PackByteBits(values, from, k - 1, j);
      BitsOfOr(PackByte(values, from, k - 1), k - 1, j);
    }
  }

  lemma PackIsPacked(values: seq<bool>)
    ensures IsPacked(Pack(values), values)
  {
    var out := Pack(values);
    forall i | 0 <= i < 8 * |out|
      ensures BitSet(out[i / 8], i % 8) == BitAt(values, i)
    {
      PackByteBits(values, 8 * (i / 8), 8, i % 8);
    }
  }

  /** The packed form is unique. */
  lemma PackedIsPack(out: Bytes, values: seq<bool>)
    requires IsPacked(out, values)
    ensures out == Pack(values)
  {
    PackIsPacked(values);
    forall n | 0 <= n < |out|
      ensures out[n] == Pack(values)[n]
    {
      forall j | 0 <= j < 8
        ensures BitSet(out[n], j) == BitSet(Pack(values)[n], j)
      {
        var i := 8 * n + j;
        assert i / 8 == n && i % 8 == j;
        assert BitSet(out[i / 8], i % 8) == BitAt(values, i) == BitSet(Pack(values)[i / 8], i % 8);
      }
      ByteFromBits(out[n], Pack(values)[n]);
    }
  }

  method PackBits(values: seq<bool>) returns (out: Bytes)
    ensures out == Pack(values)
  {
    out := seq((|values| + 7) / 8, _ => 0);
    ghost var n := |out|;
    forall i | 0 <= i < 8 * n
      ensures !BitSet(out[i / 8], i % 8)
    {
      NoBitsOfZero(i % 8);
    }
    for i := 0 to |values|
      invariant |out| == n
      invariant forall j :: 0 <= j < 8 * n ==> BitSet(out[j / 8], j % 8) == (j < i && values[j])
    {
      if values[i] {
        ghost var before := out;
        out := out[i / 8 := out[i / 8] | Mask(i % 8)];
        forall j | 0 <= j < 8 * n
          ensures BitSet(out[j / 8], j % 8) == (j < i + 1 && values[j])
        {
          if j / 8 == i / 8 {
            BitsOfOr(before[i / 8], i % 8, j % 8);
          }
        }
      }
    }
    PackedIsPack(out, values);
  }

  method UnpackBits(data: Bytes, count: nat) returns (out: seq<bool>)
    requires count <= 8 * |data|
    ensures out == Unpack(data)[..count]
  {
    out := [];
    for i := 0 to count
      invariant out == Unpack(data)[..i]
    {
      out := out + [BitSet(data[i / 8], i % 8)];
    }
  }

  lemma BitsRoundTrip(values: seq<bool>)
    ensures |Unpack(Pack(values))| >= |values|
    ensures forall i :: 0 <= i < |Unpack(Pack(values))| ==> Unpack(Pack(values))[i] == BitAt(values, i)
    ensures Unpack(Pack(values))[..|values|] == values
  {
    PackIsPacked(values);
  }

  // ---------------------------------------------------------------------------------------------
  // The four tables
  // ---------------------------------------------------------------------------------------------

  datatype Tables = Tables(
    coils: map<Word16, bool>,
    discreteInputs: map<Word16, bool>,
    inputRegisters: map<Word16, Word16>,
    holdingRegisters: map<Word16, Word16>)

  /** Entries that were never written read as zero. */
  function Lookup<T>(m: map<Word16, T>, address: Word16, zero: T): T {
    if address in m then m[address] else zero
  }

  function At(address: Word16, i: nat): Word16 {
    Wrap(address + i)
  }

  function ReadRange<T>(m: map<Word16, T>, address: Word16, quantity: nat, zero: T): seq<T> {
    seq(quantity, i requires 0 <= i => Lookup(m, At(address, i), zero))
  }

  /** Values go to consecutive addresses, which wrap at 65536. */
  function WriteRange<T>(m: map<Word16, T>, address: Word16, values: seq<T>): map<Word16, T> {
    if values == [] then m
    else
      var n := |values| - 1;
      WriteRange(m, address, values[..n])[At(address, n) := values[n]]
  }

  predicate InRange(a: Word16, address: Word16, quantity: nat) {
    exists i :: 0 <= i < quantity && a == At(address, i)
  }

  lemma WrapInjective(address: Word16, i: nat, j: nat)
    requires i < 0x1_0000 && j < 0x1_0000 && At(address, i) == At(address, j)
    ensures i == j
  {
  }

  lemma {:induction false} WrittenAt<T>(m: map<Word16, T>, address: Word16, values: seq<T>, zero: T, i: nat)
    requires |values| <= 0x1_0000 && i < |values|
    ensures Lookup(WriteRange(m, address, values), At(address, i), zero) == values[i]
  {
    var n := |values| - 1;
    if i < n {
      if At(address, i) == At(address, n) {
        WrapInjective(address, i, n);
      }
      WrittenAt(m, address, values[..n], zero, i);
    }
  }

  lemma {:induction false} UntouchedAt<T>(m: map<Word16, T>, address: Word16, values: seq<T>, zero: T, a: Word16)
    requires !InRange(a, address, |values|)
    ensures a in WriteRange(m, address, values) <==> a in m
    ensures Lookup(WriteRange(m, address, values), a, zero) == Lookup(m, a, zero)
  {
    if values != [] {
      var n := |values| - 1;
      assert a != At(address, n);
      UntouchedAt(m, address, values[..n], zero, a);
    }
  }

  lemma ReadBack<T>(m: map<Word16, T>, address: Word16, values: seq<T>, zero: T)
    requires |values| <= 0x1_0000
    ensures ReadRange(WriteRange(m, address, values), address, |values|, zero) == values
  {
    forall i | 0 <= i < |values|
      ensures Lookup(WriteRange(m, address, values), At(address, i), zero) == values[i]
    {
      WrittenAt(m, address, values, zero, i);
    }
  }
}
