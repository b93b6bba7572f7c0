/**
 Shift registers with feedback over bits, for any polynomial: feeding is linear, a window of bits no
 longer than the register is never lost, and an odd polynomial keeps count of parity.
 */
module BitRegister {
  type Bits = seq<bool>

  function Zeros(n: nat): (z: Bits)
    ensures |z| == n && forall i :: 0 <= i < n ==> !z[i]
  {
    seq(n, _ => false)
  }

  function Xor(a: Bits, b: Bits): (r: Bits)
    requires |a| == |b|
    ensures |r| == |a| && forall i :: 0 <= i < |a| ==> r[i] == (a[i] != b[i])
  {
    seq(|a|, i requires 0 <= i < |a| => a[i] != b[i])
  }

  /** The bits folded in when a one drops out; the last one is set. */
  ghost predicate Polynomial(P: Bits) {
    |P| > 0 && P[|P| - 1]
  }

  function Moved(r: Bits): (m: Bits)
    requires |r| > 0
    ensures |m| == |r| && !m[|r| - 1] && forall i :: 0 <= i < |r| - 1 ==> m[i] == r[i + 1]
  {
    r[1..] + [false]
  }

  function Tap(P: Bits, r: Bits): (t: Bits)
    requires |r| == |P| > 0
    ensures |t| == |P|
  {
    if r[0] then Xor(Moved(r), P) else Moved(r)
  }

  function Taps(P: Bits, k: nat, r: Bits): (t: Bits)
    requires |r| == |P| > 0
    ensures |t| == |P|
  {
    if k == 0 then r else Taps(P, k - 1, Tap(P, r))
  }

  /** One bit enters the register. */
  function Enter(P: Bits, r: Bits, x: bool): (t: Bits)
    requires |r| == |P| > 0
    ensures |t| == |P|
  {
    Tap(P, r[0 := r[0] != x])
  }

  function Feed(P: Bits, r: Bits, bits: Bits): (t: Bits)
    requires |r| == |P| > 0
    ensures |t| == |P|
    decreases |bits|
  {
    if bits == [] then r else Feed(P, Enter(P, r, bits[0]), bits[1..])
  }

  /** The register that holds the given bits, and zeros behind them. */
  function Load(n: nat, bits: Bits): (r: Bits)
    requires |bits| <= n
    ensures |r| == n
  {
    bits + Zeros(n - |bits|)
  }

  lemma TapLinear(P: Bits, r: Bits, q: Bits)
    requires |r| == |q| == |P| > 0
    ensures Tap(P, Xor(r, q)) == Xor(Tap(P, r), Tap(P, q))
  {
  }

  lemma {:induction false} FeedLinear(P: Bits, r: Bits, q: Bits, x: Bits, y: Bits)
    requires |r| == |q| == |P| > 0 && |x| == |y|
    ensures Feed(P, Xor(r, q), Xor(x, y)) == Xor(Feed(P, r, x), Feed(P, q, y))
    decreases |x|
  {
    if x != [] {
      var rx, qy := r[0 := r[0] != x[0]], q[0 := q[0] != y[0]];
      assert Xor(r, q)[0 := Xor(r, q)[0] != Xor(x, y)[0]] == Xor(rx, qy);
      TapLinear(P, rx, qy);
      assert Xor(x, y)[1..] == Xor(x[1..], y[1..]);
      FeedLinear(P, Enter(P, r, x[0]), Enter(P, q, y[0]), x[1..], y[1..]);
    }
  }

  lemma {:induction false} FeedAppend(P: Bits, r: Bits, x: Bits, y: Bits)
    requires |r| == |P| > 0
    ensures Feed(P, r, x + y) == Feed(P, Feed(P, r, x), y)
    decreases |x|
  {
    if x == [] {
      assert x + y == y;
    } else {
      assert (x + y)[1..] == x[1..] + y;
      FeedAppend(P, Enter(P, r, x[0]), x[1..], y);
    }
  }

  /** The feedback loses nothing: only the zero register turns to zero. */
  lemma TapZero(P: Bits, r: Bits)
    requires Polynomial(P) && |r| == |P|
    ensures Tap(P, r) == Zeros(|P|) <==> r == Zeros(|P|)
  {
    var n := |P|;
    if r[0] {
      assert Tap(P, r)[n - 1];
    } else {
      assert forall i :: 0 < i < n ==> Moved(r)[i - 1] == r[i];
      assert (forall i :: 0 <= i < n ==> !Moved(r)[i]) <==> (forall i :: 0 <= i < n ==> !r[i]);
    }
  }

  lemma {:induction false} TapsOfZero(P: Bits, k: nat)
    requires Polynomial(P)
    ensures Taps(P, k, Zeros(|P|)) == Zeros(|P|)
  {
    if k > 0 {
      TapZero(P, Zeros(|P|));
      TapsOfZero(P, k - 1);
    }
  }

  lemma {:induction false} TapsOfOther(P: Bits, k: nat, r: Bits)
    requires Polynomial(P) && |r| == |P| && r != Zeros(|P|)
    ensures Taps(P, k, r) != Zeros(|P|)
  {
    if k > 0 {
      TapZero(P, r);
      TapsOfOther(P, k - 1, Tap(P, r));
    }
  }

  lemma TapsZero(P: Bits, k: nat, r: Bits)
    requires Polynomial(P) && |r| == |P|
    ensures Taps(P, k, r) == Zeros(|P|) <==> r == Zeros(|P|)
  {
    TapsOfZero(P, k);
    if r != Zeros(|P|) {
      TapsOfOther(P, k, r);
    }
  }

  /** Bits may enter one by one, or all at once before the shifts. */
  lemma {:induction false} FeedIsTaps(P: Bits, r: Bits, bits: Bits)
    requires |r| == |P| > 0 && |bits| <= |P|
    ensures Feed(P, r, bits) == Taps(P, |bits|, Xor(r, Load(|P|, bits)))
    decreases |bits|
  {
    var n := |P|;
    if bits == [] {
      assert Xor(r, Zeros(n)) == r;
    } else {
      var q := Xor(r, Load(n, bits));
      assert Tap(P, q) == Xor(Enter(P, r, bits[0]), Load(n, bits[1..]));
      FeedIsTaps(P, Enter(P, r, bits[0]), bits[1..]);
    }
  }

  /** A register is emptied by as many bits as it holds exactly when they are the ones it holds. */
  lemma FeedZeroIff(P: Bits, r: Bits, bits: Bits)
    requires Polynomial(P) && |r| == |P| && |bits| <= |P|
    ensures Feed(P, r, bits) == Zeros(|P|) <==> r == Load(|P|, bits)
  {
    var q := Xor(r, Load(|P|, bits));
    FeedIsTaps(P, r, bits);
    TapsZero(P, |bits|, q);
    if q == Zeros(|P|) {
      forall i | 0 <= i < |P|
        ensures r[i] == Load(|P|, bits)[i]
      {
        assert q[i] == (r[i] != Load(|P|, bits)[i]);
      }
    }
  }

  lemma {:induction false} FeedZeros(P: Bits, r: Bits, k: nat)
    requires Polynomial(P) && |r| == |P|
    ensures Feed(P, r, Zeros(k)) == Zeros(|P|) <==> r == Zeros(|P|)
    decreases k
  {
    if k > 0 {
      assert r[0 := r[0] != false] == r;
      TapZero(P, r);
      assert Zeros(k)[1..] == Zeros(k - 1);
      FeedZeros(P, Tap(P, r), k - 1);
    }
  }

  /** All ones of the error lie in one stretch no longer than the register. */
  ghost predicate IsBurst(error: Bits, width: nat) {
    exists from: nat, to: nat :: from <= to <= |error| && to - from <= width && QuietOutside(error, from, to)
  }

  ghost predicate QuietOutside(error: Bits, from: nat, to: nat) {
    forall i :: 0 <= i < |error| && !(from <= i < to) ==> !error[i]
  }

  /** Zeros before and behind a window neither hide nor cause anything. */
  lemma QuietSurroundings(P: Bits, before: nat, window: Bits, behind: nat)
    requires Polynomial(P)
    ensures Feed(P, Zeros(|P|), Zeros(before) + (window + Zeros(behind))) == Zeros(|P|)
            <==> Feed(P, Zeros(|P|), window) == Zeros(|P|)
  {
    var z := Zeros(|P|);
    FeedAppend(P, z, Zeros(before), window + Zeros(behind));
    FeedZeros(P, z, before);
    FeedAppend(P, z, window, Zeros(behind));
    FeedZeros(P, Feed(P, z, window), behind);
  }

  lemma BurstSlices(error: Bits, from: nat, to: nat)
    requires from <= to <= |error| && QuietOutside(error, from, to)
    ensures error == Zeros(from) + (error[from..to] + Zeros(|error| - to))
  {
  }

  lemma LoadedWindowIsZero(n: nat, window: Bits)
    requires |window| <= n && Zeros(n) == Load(n, window)
    ensures forall i :: 0 <= i < |window| ==> !window[i]
  {
    forall i | 0 <= i < |window|
      ensures !window[i]
    {
      assert Load(n, window)[i] == window[i];
    }
  }

  /** An error burst no longer than the register never leaves an empty register empty. */
  lemma BurstIsNoticed(P: Bits, error: Bits)
    requires Polynomial(P) && IsBurst(error, |P|)
    requires Feed(P, Zeros(|P|), error) == Zeros(|P|)
    ensures error == Zeros(|error|)
  {
    var from: nat, to: nat :| from <= to <= |error| && to - from <= |P| && QuietOutside(error, from, to);
    BurstSlices(error, from, to);
    QuietSurroundings(P, from, error[from..to], |error| - to);
    QuietWindow(P, error[from..to]);
    ZeroInAndOut(error, from, to);
  }

  lemma QuietWindow(P: Bits, window: Bits)
    requires Polynomial(P) && |window| <= |P| && Feed(P, Zeros(|P|), window) == Zeros(|P|)
    ensures forall i :: 0 <= i < |window| ==> !window[i]
  {
    FeedZeroIff(P, Zeros(|P|), window);
    LoadedWindowIsZero(|P|, window);
  }

  lemma ZeroInAndOut(error: Bits, from: nat, to: nat)
    requires from <= to <= |error| && QuietOutside(error, from, to)
    requires forall i :: 0 <= i < to - from ==> !error[from..to][i]
    ensures error == Zeros(|error|)
  {
    assert forall i :: from <= i < to ==> error[i] == error[from..to][i - from];
  }

  // ---------------------------------------------------------------------------------------------
  // Parity
  // ---------------------------------------------------------------------------------------------

  /** The number of ones is odd. */
  function Odd(bits: Bits): bool {
    if bits == [] then false else bits[0] != Odd(bits[1..])
  }

  function Ones(bits: Bits): nat {
    if bits == [] then 0 else (if bits[0] then 1 else 0) + Ones(bits[1..])
  }

  lemma {:induction false} OddIsOnes(bits: Bits)
    ensures Odd(bits) <==> Ones(bits) % 2 == 1
  {
    if bits != [] {
      OddIsOnes(bits[1..]);
    }
  }

  lemma {:induction false} OddXor(a: Bits, b: Bits)
    requires |a| == |b|
    ensures Odd(Xor(a, b)) == (Odd(a) != Odd(b))
  {
    if a != [] {
      assert Xor(a, b)[1..] == Xor(a[1..], b[1..]);
      OddXor(a[1..], b[1..]);
    }
  }

  lemma {:induction false} OddAppend(a: Bits, b: Bits)
    ensures Odd(a + b) == (Odd(a) != Odd(b))
  {
    if a == [] {
      assert a + b == b;
    } else {
      assert (a + b)[1..] == a[1..] + b;
      OddAppend(a[1..], b);
    }
  }

  lemma TapKeepsParity(P: Bits, r: Bits)
    requires |r| == |P| > 0 && Odd(P)
    ensures Odd(Tap(P, r)) == Odd(r)
  {
    OddAppend(r[1..], [false]);
    assert Odd([false]) == (false != Odd([]));
    if r[0] {
      OddXor(Moved(r), P);
    }
  }

  lemma {:induction false} FeedParity(P: Bits, r: Bits, bits: Bits)
    requires |r| == |P| > 0 && Odd(P)
    ensures Odd(Feed(P, r, bits)) == (Odd(r) != Odd(bits))
    decreases |bits|
  {
    if bits != [] {
      var q := r[0 := r[0] != bits[0]];
      assert q[1..] == r[1..];
      TapKeepsParity(P, q);
      FeedParity(P, Enter(P, r, bits[0]), bits[1..]);
    }
  }

  lemma {:induction false} OddOfZeros(n: nat)
    ensures !Odd(Zeros(n))
  {
    if n > 0 {
      assert Zeros(n)[1..] == Zeros(n - 1);
      OddOfZeros(n - 1);
    }
  }
}
