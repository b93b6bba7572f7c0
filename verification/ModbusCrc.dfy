/**
 CRC-16 of the MODBUS over Serial Line Specification V1.02, section 6.2.2 (the FECbus frame uses the
 same one), and the changes of a frame that it is sure to notice. The 16-bit register is also seen as
 a shift register into which the bits of the frame are fed, least significant bit of each byte first.
 */
module ModbusCrc {
  import opened BitRegister

  type Bytes = seq<bv8>

  predicate Low(s: bv16) {
    s & 1 != 0
  }

  function Half(s: bv16): bv16 {
    s >> 1
  }

  /** One step of the shift register: shift right, and fold in the polynomial when a one drops out. */
  function Shift(s: bv16): bv16 {
    if Low(s) then Half(s) ^ 0xA001 else Half(s)
  }

  function Shifts(k: nat, s: bv16): bv16 {
    if k == 0 then s else Shift(Shifts(k - 1, s))
  }

  function Register(s: bv16, data: Bytes): bv16 {
    if data == [] then s
    else Shifts(8, Register(s, data[..|data| - 1]) ^ (data[|data| - 1] as bv16))
  }

  function Crc16(data: Bytes): bv16 {
    Register(0xFFFF, data)
  }

  method ComputeCrc16(data: Bytes) returns (crc: bv16)
    ensures crc == Crc16(data)
  {
    crc := 0xFFFF;
    for i := 0 to |data|
      invariant crc == Register(0xFFFF, data[..i])
    {
      assert data[..i + 1][..i] == data[..i];
      crc := crc ^ (data[i] as bv16);
      ghost var start := crc;
      for k := 0 to 8
        invariant crc == Shifts(k, start)
      {
        if crc & 1 != 0 {
          crc := (crc >> 1) ^ 0xA001;
        } else {
          crc := crc >> 1;
        }
      }
    }
    assert data[..|data|] == data;
  }

  // ---------------------------------------------------------------------------------------------
  // Words as bits, least significant bit first
  // ---------------------------------------------------------------------------------------------

  function WordBits(s: bv16, n: nat): (bits: Bits)
    ensures |bits| == n
  {
    if n == 0 then [] else [Low(s)] + WordBits(Half(s), n - 1)
  }

  /** The word has no bits above the lowest n. */
  predicate Fits(s: bv16, n: nat) {
    if n == 0 then s == 0 else Fits(Half(s), n - 1)
  }

  function ByteBits(b: bv8): Bits {
    WordBits(b as bv16, 8)
  }

  function FrameBits(data: Bytes): (bits: Bits)
    ensures |bits| == 8 * |data|
  {
    if data == [] then [] else FrameBits(data[..|data| - 1]) + ByteBits(data[|data| - 1])
  }

  function Poly(): Bits {
    WordBits(0xA001, 16)
  }

  lemma WordFits(s: bv16)
    ensures Fits(s, 16)
  {
    var a := Half(Half(Half(Half(s))));
    var b := Half(Half(Half(Half(a))));
    var c := Half(Half(Half(Half(b))));
    var d := Half(Half(Half(Half(c))));
    assert d == 0;
    FourSteps(c, 0);
    FourSteps(b, 4);
    FourSteps(a, 8);
    FourSteps(s, 12);
  }

  lemma FourSteps(s: bv16, n: nat)
    ensures Fits(s, n + 4) == Fits(Half(Half(Half(Half(s)))), n)
  {
    assert Fits(s, n + 4) == Fits(Half(s), n + 3);
    assert Fits(Half(s), n + 3) == Fits(Half(Half(s)), n + 2);
    assert Fits(Half(Half(s)), n + 2) == Fits(Half(Half(Half(s))), n + 1);
  }

  lemma ByteFits(b: bv8)
    ensures Fits(b as bv16, 8)
  {
    var w := b as bv16;
    assert Half(Half(Half(Half(Half(Half(Half(Half(w)))))))) == 0;
    FourSteps(Half(Half(Half(Half(w)))), 0);
    FourSteps(w, 4);
  }

  lemma XorParts(s: bv16, t: bv16)
    ensures Low(s ^ t) == (Low(s) != Low(t))
    ensures Half(s ^ t) == Half(s) ^ Half(t)
  {
  }

  lemma XorCons(x: bool, y: bool, a: Bits, b: Bits)
    requires |a| == |b|
    ensures Xor([x] + a, [y] + b) == [x != y] + Xor(a, b)
  {
  }

  /** The bits of a word whose lowest bit and upper half are those of an exclusive or. */
  lemma XorFromParts(u: bv16, s: bv16, t: bv16, n: nat)
    requires n > 0 && Low(u) == (Low(s) != Low(t))
    requires WordBits(Half(u), n - 1) == Xor(WordBits(Half(s), n - 1), WordBits(Half(t), n - 1))
    ensures WordBits(u, n) == Xor(WordBits(s, n), WordBits(t, n))
  {
    XorCons(Low(s), Low(t), WordBits(Half(s), n - 1), WordBits(Half(t), n - 1));
  }

  lemma {:induction false} XorBits(s: bv16, t: bv16, n: nat)
    ensures WordBits(s ^ t, n) == Xor(WordBits(s, n), WordBits(t, n))
    decreases n
  {
    if n > 0 {
      XorParts(s, t);
      XorBits(Half(s), Half(t), n - 1);
      XorFromParts(s ^ t, s, t, n);
    }
  }

  lemma {:induction false} ZeroBits(n: nat)
    ensures WordBits(0, n) == Zeros(n)
  {
    if n > 0 {
      assert Half(0) == 0 && !Low(0);
      ZeroBits(n - 1);
    }
  }

  lemma {:induction false} PadBits(s: bv16, n: nat, m: nat)
    requires Fits(s, n)
    ensures WordBits(s, n + m) == WordBits(s, n) + Zeros(m)
    decreases n
  {
    if n == 0 {
      ZeroBits(m);
      assert WordBits(s, 0) + Zeros(m) == Zeros(m);
    } else {
      PadBits(Half(s), n - 1, m);
      assert WordBits(s, n + m) == [Low(s)] + (WordBits(Half(s), n - 1) + Zeros(m));
    }
  }

  lemma HalvedBits(s: bv16)
    ensures WordBits(Half(s), 16) == Moved(WordBits(s, 16))
  {
    WordFits(s);
    PadBits(Half(s), 15, 1);
    assert WordBits(s, 16)[1..] == WordBits(Half(s), 15);
  }

  lemma Parts(s: bv16, t: bv16)
    requires Low(s) == Low(t)
    requires Half(s) == Half(t)
    ensures s == t
  {
  }

  lemma ConsDecides(x: bool, y: bool, a: Bits, b: Bits)
    requires [x] + a == [y] + b
    ensures x == y && a == b
  {
    assert ([x] + a)[0] == x && ([y] + b)[0] == y;
    assert ([x] + a)[1..] == a && ([y] + b)[1..] == b;
  }

  lemma {:induction false} BitsDecide(s: bv16, t: bv16, n: nat)
    requires Fits(s, n) && Fits(t, n) && WordBits(s, n) == WordBits(t, n)
    ensures s == t
    decreases n
  {
    if n > 0 {
      ConsDecides(Low(s), Low(t), WordBits(Half(s), n - 1), WordBits(Half(t), n - 1));
      BitsDecide(Half(s), Half(t), n - 1);
      Parts(s, t);
    }
  }

  lemma Peel(s: bv16, half: bv16, low: bool, n: nat)
    requires n > 0 && Half(s) == half && Low(s) == low
    ensures WordBits(s, n) == [low] + WordBits(half, n - 1)
  {
  }

  lemma TopAndParity(low: bool, rest: Bits)
    ensures Odd([low] + rest) == (low != Odd(rest))
    ensures Polynomial(rest) ==> Polynomial([low] + rest)
  {
    assert ([low] + rest)[1..] == rest;
  }

  /** One more bit in front of a word that is known to end with a one. */
  lemma PolyStep(s: bv16, half: bv16, low: bool, n: nat)
    requires n > 0 && Half(s) == half && Low(s) == low
    ensures Polynomial(WordBits(half, n - 1)) ==> Polynomial(WordBits(s, n))
    ensures Odd(WordBits(s, n)) == (low != Odd(WordBits(half, n - 1)))
  {
    Peel(s, half, low, n);
    TopAndParity(low, WordBits(half, n - 1));
  }

  lemma PolyShape()
    ensures |Poly()| == 16 && Polynomial(Poly()) && Odd(Poly())
  {
    assert WordBits(1, 1) == [true];
    PolyStep(0x0002, 0x0001, false, 2);
    PolyStep(0x0005, 0x0002, true, 3);
    PolyStep(0x000A, 0x0005, false, 4);
    PolyStep(0x0014, 0x000A, false, 5);
    PolyStep(0x0028, 0x0014, false, 6);
    PolyStep(0x0050, 0x0028, false, 7);
    PolyStep(0x00A0, 0x0050, false, 8);
    PolyStep(0x0140, 0x00A0, false, 9);
    PolyStep(0x0280, 0x0140, false, 10);
    PolyStep(0x0500, 0x0280, false, 11);
    PolyStep(0x0A00, 0x0500, false, 12);
    PolyStep(0x1400, 0x0A00, false, 13);
    PolyStep(0x2800, 0x1400, false, 14);
    PolyStep(0x5000, 0x2800, false, 15);
    PolyStep(0xA001, 0x5000, true, 16);
  }

  // ---------------------------------------------------------------------------------------------
  // The check value is a shift register fed with the frame
  // ---------------------------------------------------------------------------------------------

  lemma ShiftIsTap(s: bv16)
    ensures WordBits(Shift(s), 16) == Tap(Poly(), WordBits(s, 16))
  {
    HalvedBits(s);
    if Low(s) {
      XorBits(Half(s), 0xA001, 16);
    }
  }

  lemma {:induction false} ShiftsAreTaps(k: nat, s: bv16)
    ensures WordBits(Shifts(k, s), 16) == Taps(Poly(), k, WordBits(s, 16))
    decreases k
  {
    if k > 0 {
      ShiftsAreTaps(k - 1, s);
      ShiftIsTap(Shifts(k - 1, s));
      TapsLast(Poly(), k - 1, WordBits(s, 16));
    }
  }

  lemma {:induction false} TapsLast(P: Bits, k: nat, r: Bits)
    requires |r| == |P| > 0
    ensures Taps(P, k + 1, r) == Tap(P, Taps(P, k, r))
    decreases k
  {
    if k > 0 {
      TapsLast(P, k - 1, Tap(P, r));
    }
  }

  lemma ByteLoads(s: bv16, b: bv8)
    ensures WordBits(s ^ (b as bv16), 16) == Xor(WordBits(s, 16), Load(16, ByteBits(b)))
  {
    XorBits(s, b as bv16, 16);
    ByteFits(b);
    PadBits(b as bv16, 8, 8);
  }

  lemma ByteEnters(s: bv16, b: bv8)
    ensures WordBits(Shifts(8, s ^ (b as bv16)), 16) == Feed(Poly(), WordBits(s, 16), ByteBits(b))
  {
    ShiftsAreTaps(8, s ^ (b as bv16));
    ByteLoads(s, b);
    FeedIsTaps(Poly(), WordBits(s, 16), ByteBits(b));
  }

  lemma {:induction false} RegisterIsFeed(s: bv16, data: Bytes)
    ensures WordBits(Register(s, data), 16) == Feed(Poly(), WordBits(s, 16), FrameBits(data))
    decreases |data|
  {
    if data != [] {
      var before, last := data[..|data| - 1], data[|data| - 1];
      RegisterIsFeed(s, before);
      ByteEnters(Register(s, before), last);
      FeedAppend(Poly(), WordBits(s, 16), FrameBits(before), ByteBits(last));
    }
  }

  /** The check value as a frame carries it: low byte first. */
  function Word(low: bv8, high: bv8): bv16 {
    (low as bv16) | ((high as bv16) << 8)
  }

  function LowByte(s: bv16): bv8 {
    (s & 0xFF) as bv8
  }

  function HighByte(s: bv16): bv8 {
    (s >> 8) as bv8
  }

  lemma WordOfBytes(s: bv16)
    ensures Word(LowByte(s), HighByte(s)) == s
  {
  }

  lemma BytesOfWord(low: bv8, high: bv8)
    ensures LowByte(Word(low, high)) == low && HighByte(Word(low, high)) == high
  {
  }

  lemma WordParts(low: bv8, high: bv8)
    ensures Word(low, high) == (low as bv16) ^ ((high as bv16) << 8)
    ensures Half(Half(Half(Half(Half(Half(Half(Half(Word(low, high))))))))) == high as bv16
  {
  }

  lemma RaisedLows(high: bv8)
    ensures var t := (high as bv16) << 8;
            && !Low(t) && !Low(Half(t)) && !Low(Half(Half(t))) && !Low(Half(Half(Half(t))))
            && !Low(Half(Half(Half(Half(t))))) && !Low(Half(Half(Half(Half(Half(t))))))
            && !Low(Half(Half(Half(Half(Half(Half(t)))))))
            && !Low(Half(Half(Half(Half(Half(Half(Half(t))))))))
  {
  }

  function Halves(k: nat, s: bv16): bv16 {
    if k == 0 then s else Halves(k - 1, Half(s))
  }

  lemma ConsAppend(x: bool, a: Bits, b: Bits)
    ensures [x] + a + b == [x] + (a + b)
  {
  }

  lemma {:induction false} SplitBits(s: bv16, n: nat, m: nat)
    ensures WordBits(s, n + m) == WordBits(s, n) + WordBits(Halves(n, s), m)
    decreases n
  {
    if n == 0 {
      assert WordBits(s, 0) + WordBits(s, m) == WordBits(s, m);
    } else {
      SplitBits(Half(s), n - 1, m);
      ConsAppend(Low(s), WordBits(Half(s), n - 1), WordBits(Halves(n, s), m));
    }
  }

  lemma SilentStep(t: bv16, n: nat)
    requires n > 0 && !Low(t) && WordBits(Half(t), n - 1) == Zeros(n - 1)
    ensures WordBits(t, n) == Zeros(n)
  {
    assert Zeros(n) == [false] + Zeros(n - 1);
  }

  lemma FourHalves(k: nat, s: bv16)
    ensures Halves(k + 4, s) == Halves(k, Half(Half(Half(Half(s)))))
  {
    assert Halves(k + 4, s) == Halves(k + 3, Half(s));
    assert Halves(k + 3, Half(s)) == Halves(k + 2, Half(Half(s)));
    assert Halves(k + 2, Half(Half(s))) == Halves(k + 1, Half(Half(Half(s))));
  }

  lemma RaisedIsSilent(high: bv8)
    ensures WordBits((high as bv16) << 8, 8) == Zeros(8)
  {
    var t := (high as bv16) << 8;
    RaisedLows(high);
    var u := Half(Half(Half(Half(t))));
    assert WordBits(Half(Half(Half(Half(u)))), 0) == Zeros(0);
    SilentStep(Half(Half(Half(u))), 1);
    SilentStep(Half(Half(u)), 2);
    SilentStep(Half(u), 3);
    SilentStep(u, 4);
    SilentStep(Half(Half(Half(t))), 5);
    SilentStep(Half(Half(t)), 6);
    SilentStep(Half(t), 7);
    SilentStep(t, 8);
  }

  lemma TrailerBits(low: bv8, high: bv8)
    ensures WordBits(Word(low, high), 16) == ByteBits(low) + ByteBits(high)
  {
    var s, t := Word(low, high), (high as bv16) << 8;
    WordParts(low, high);
    SplitBits(s, 8, 8);
    FourHalves(0, Half(Half(Half(Half(s)))));
    FourHalves(4, s);
    XorBits(low as bv16, t, 8);
    RaisedIsSilent(high);
  }

  lemma AppendTwo<T>(a: seq<T>, x: T, y: T)
    ensures a + [x, y] == a + [x] + [y]
  {
  }

  lemma SplitLastTwo<T>(a: seq<T>)
    requires |a| >= 2
    ensures a == a[..|a| - 2] + [a[|a| - 2], a[|a| - 1]]
  {
  }

  lemma SplitLast<T>(a: seq<T>)
    requires |a| >= 1
    ensures a == a[..|a| - 1] + [a[|a| - 1]]
  {
  }

  lemma FrameBitsSnoc(payload: Bytes, b: bv8)
    ensures FrameBits(payload + [b]) == FrameBits(payload) + ByteBits(b)
  {
    assert (payload + [b])[..|payload|] == payload;
  }

  lemma ConsAssoc(a: Bits, b: Bits, c: Bits)
    ensures a + b + c == a + (b + c)
  {
  }

  lemma FrameBitsTrailer(payload: Bytes, low: bv8, high: bv8)
    ensures FrameBits(payload + [low, high]) == FrameBits(payload) + (ByteBits(low) + ByteBits(high))
  {
    FrameBitsSnoc(payload, low);
    FrameBitsSnoc(payload + [low], high);
    AppendTwo(payload, low, high);
    ConsAssoc(FrameBits(payload), ByteBits(low), ByteBits(high));
  }

  lemma WordsDecide(s: bv16, t: bv16)
    ensures WordBits(s, 16) == WordBits(t, 16) <==> s == t
  {
    if WordBits(s, 16) == WordBits(t, 16) {
      WordFits(s);
      WordFits(t);
      BitsDecide(s, t, 16);
    }
  }

  const START := WordBits(0xFFFF, 16)

  /** Frames whose check value matches are those that empty the register. */
  lemma MatchIsEmptyRegister(payload: Bytes, low: bv8, high: bv8)
    ensures Word(low, high) == Crc16(payload) <==>
            Feed(Poly(), START, FrameBits(payload + [low, high])) == Zeros(16)
  {
    var trailer := ByteBits(low) + ByteBits(high);
    RegisterIsFeed(0xFFFF, payload);
    FrameBitsTrailer(payload, low, high);
    FeedAppend(Poly(), START, FrameBits(payload), trailer);
    PolyShape();
    FeedZeroIff(Poly(), WordBits(Crc16(payload), 16), trailer);
    assert Load(16, trailer) == trailer;
    TrailerBits(low, high);
    WordsDecide(Word(low, high), Crc16(payload));
  }

  // ---------------------------------------------------------------------------------------------
  // Changes that are noticed
  // ---------------------------------------------------------------------------------------------

  /** The last two bytes are the check value of all before them. */
  predicate ChecksOut(frame: Bytes)
    requires |frame| >= 2
  {
    Word(frame[|frame| - 2], frame[|frame| - 1]) == Crc16(frame[..|frame| - 2])
  }

  function ErrorBits(f: Bytes, g: Bytes): Bits
    requires |f| == |g|
  {
    Xor(FrameBits(f), FrameBits(g))
  }

  lemma CheckedFrameEmpties(f: Bytes)
    requires |f| >= 2
    ensures ChecksOut(f) <==> Feed(Poly(), START, FrameBits(f)) == Zeros(16)
  {
    var n := |f| - 2;
    MatchIsEmptyRegister(f[..n], f[n], f[n + 1]);
    SplitLastTwo(f);
  }

  lemma XorSelf(x: Bits)
    ensures Xor(x, x) == Zeros(|x|)
  {
  }

  lemma BothCheckOut(f: Bytes, g: Bytes)
    requires |f| == |g| >= 2 && ChecksOut(f) && ChecksOut(g)
    ensures Feed(Poly(), Zeros(16), ErrorBits(f, g)) == Zeros(16)
  {
    CheckedFrameEmpties(f);
    CheckedFrameEmpties(g);
    FeedLinear(Poly(), START, START, FrameBits(f), FrameBits(g));
    XorSelf(START);
    XorSelf(Zeros(16));
  }

  lemma AppendDecides(a: Bits, b: Bits, x: Bits, y: Bits)
    requires |a| == |b| && a + x == b + y
    ensures a == b && x == y
  {
    assert (a + x)[..|a|] == a && (b + y)[..|b|] == b;
    assert (a + x)[|a|..] == x && (b + y)[|b|..] == y;
  }

  lemma ByteDecides(b: bv8, c: bv8)
    requires ByteBits(b) == ByteBits(c)
    ensures b == c
  {
    ByteFits(b);
    ByteFits(c);
    BitsDecide(b as bv16, c as bv16, 8);
    Narrow(b, c);
  }

  lemma Narrow(b: bv8, c: bv8)
    requires b as bv16 == c as bv16
    ensures b == c
  {
  }

  lemma {:induction false} FrameBitsDecide(f: Bytes, g: Bytes)
    requires |f| == |g| && FrameBits(f) == FrameBits(g)
    ensures f == g
  {
    if f != [] {
      var n := |f| - 1;
      AppendDecides(FrameBits(f[..n]), FrameBits(g[..n]), ByteBits(f[n]), ByteBits(g[n]));
      FrameBitsDecide(f[..n], g[..n]);
      ByteDecides(f[n], g[n]);
      SplitLast(f);
      SplitLast(g);
    }
  }

  lemma NoErrorBits(f: Bytes, g: Bytes)
    requires |f| == |g| && forall i :: 0 <= i < |ErrorBits(f, g)| ==> !ErrorBits(f, g)[i]
    ensures f == g
  {
    forall i | 0 <= i < 8 * |f|
      ensures FrameBits(f)[i] == FrameBits(g)[i]
    {
      assert !ErrorBits(f, g)[i];
    }
    FrameBitsDecide(f, g);
  }

  /** Any change confined to sixteen neighbouring bits, wherever it lies, is noticed. */
  lemma BurstIsRejected(f: Bytes, g: Bytes)
    requires |f| == |g| >= 2 && ChecksOut(f) && f != g
    requires IsBurst(ErrorBits(f, g), 16)
    ensures !ChecksOut(g)
  {
    if ChecksOut(g) {
      BothCheckOut(f, g);
      PolyShape();
      BurstIsNoticed(Poly(), ErrorBits(f, g));
      NoErrorBits(f, g);
    }
  }

  /** Any odd number of flipped bits, wherever they lie, is noticed. */
  lemma OddFlipsAreRejected(f: Bytes, g: Bytes)
    requires |f| == |g| >= 2 && ChecksOut(f)
    requires Ones(ErrorBits(f, g)) % 2 == 1
    ensures !ChecksOut(g)
  {
    if ChecksOut(g) {
      BothCheckOut(f, g);
      PolyShape();
      FeedParity(Poly(), Zeros(16), ErrorBits(f, g));
      OddIsOnes(ErrorBits(f, g));
      OddOfZeros(16);
    }
  }

  lemma {:induction false} FrameBitsAt(f: Bytes, i: nat, k: nat)
    requires i < |f| && k < 8
    ensures FrameBits(f)[8 * i + k] == ByteBits(f[i])[k]
  {
    if i < |f| - 1 {
      FrameBitsAt(f[..|f| - 1], i, k);
    }
  }

  /** In particular, whatever happens to one byte, or to two neighbouring bytes, is noticed. */
  lemma ChangedBytesAreRejected(f: Bytes, g: Bytes, at: nat)
    requires |f| == |g| >= 2 && ChecksOut(f) && f != g && at < |f|
    requires forall i :: 0 <= i < |f| && i != at && i != at + 1 ==> f[i] == g[i]
    ensures !ChecksOut(g)
  {
    var error := ErrorBits(f, g);
    var from, to := 8 * at, if at + 2 <= |f| then 8 * at + 16 else 8 * |f|;
    forall j | 0 <= j < |error| && !(from <= j < to)
      ensures !error[j]
    {
      var i, k := j / 8, j % 8;
      FrameBitsAt(f, i, k);
      FrameBitsAt(g, i, k);
      assert f[i] == g[i];
    }
    assert QuietOutside(error, from, to);
    BurstIsRejected(f, g);
  }
}
