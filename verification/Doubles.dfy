/** Whole numbers as JavaScript keeps them: 53 significant bits, rounded to the nearest and from the middle to even. */
module Doubles {
  const TWO_53 := 0x20_0000_0000_0000

  /** How far apart the doubles around a number are. */
  function Quantum(n: nat): (q: nat)
    ensures q > 0
  {
    if n < TWO_53 then 1 else 2 * Quantum(n / 2)
  }

  /** The multiple of q nearest to n, from the middle the even one. */
  function Nearest(n: nat, q: nat): nat
    requires q > 0
  {
    var low := n / q * q;
    if 2 * (n - low) < q || (2 * (n - low) == q && n / q % 2 == 0) then low else low + q
  }

  function Double(n: nat): nat {
    Nearest(n, Quantum(n))
  }

  lemma SmallIsExact(n: nat)
    requires n <= TWO_53
    ensures Double(n) == n
  {
    if n == TWO_53 {
      assert Quantum(n) == 2 * Quantum(TWO_53 / 2) == 2;
    }
  }

  lemma DivideTwice(n: nat, q: nat)
    requires q > 0
    ensures (2 * n) / (2 * q) == n / q
  {
    var k, r := n / q, n % q;
    assert 2 * n == (2 * q) * k + 2 * r && 0 <= 2 * r < 2 * q;
    Unique(2 * n, 2 * q, k, 2 * r);
  }

  lemma Unique(n: nat, d: nat, k: nat, r: nat)
    requires n == d * k + r && r < d
    ensures n / d == k && n % d == r
  {
    var t := n / d - k;
    assert d * t == r - n % d;
    Multiples(d, t);
  }

  lemma Multiples(d: int, t: int)
    requires d > 0
    ensures t >= 1 ==> d * t >= d
    ensures t <= -1 ==> d * t <= -d
  {
  }

  /** Beyond 2^53 doubling a number doubles its double. */
  lemma DoubleOfTwice(n: nat)
    requires 2 * n >= TWO_53
    ensures Double(2 * n) == 2 * Double(n)
  {
    var q := Quantum(n);
    assert Quantum(2 * n) == 2 * q;
    NearestOfTwice(n, q);
  }

  lemma NearestOfTwice(n: nat, q: nat)
    requires q > 0
    ensures Nearest(2 * n, 2 * q) == 2 * Nearest(n, q)
  {
    DivideTwice(n, q);
    var k := n / q;
    assert k * (2 * q) == 2 * (k * q);
  }

  ghost predicate IsPowerOfTwo(q: nat) {
    q == 1 || (q > 1 && q % 2 == 0 && IsPowerOfTwo(q / 2))
  }

  lemma {:induction false} QuantumIsPower(n: nat)
    ensures IsPowerOfTwo(Quantum(n))
  {
    if n >= TWO_53 {
      QuantumIsPower(n / 2);
    }
  }

  /** A multiple of a power of two by at most 53 bits is a double. */
  lemma {:induction false} MultipleIsDouble(m: nat, q: nat)
    requires m <= TWO_53 && IsPowerOfTwo(q)
    ensures Double(m * q) == m * q
    decreases q
  {
    if q == 1 {
      SmallIsExact(m);
    } else {
      var half := m * (q / 2);
      MultipleIsDouble(m, q / 2);
      assert m * q == 2 * half;
      if 2 * half >= TWO_53 {
        DoubleOfTwice(half);
      } else {
        SmallIsExact(2 * half);
      }
    }
  }

  /** How many quanta a number has. */
  lemma {:induction false} FewQuanta(n: nat)
    ensures n / Quantum(n) < TWO_53
  {
    if n >= TWO_53 {
      FewQuanta(n / 2);
      DivideHalf(n, Quantum(n / 2));
    }
  }

  lemma DivideHalf(n: nat, q: nat)
    requires q > 0
    ensures n / (2 * q) == n / 2 / q
  {
    var k, r := n / 2 / q, n / 2 % q;
    assert n == (2 * q) * k + (2 * r + n % 2) && 2 * r + n % 2 < 2 * q;
    Unique(n, 2 * q, k, 2 * r + n % 2);
  }

  /** Rounding again changes nothing. */
  lemma DoubleIsDouble(n: nat)
    ensures Double(Double(n)) == Double(n)
  {
    var q := Quantum(n);
    QuantumIsPower(n);
    FewQuanta(n);
    var m := NearestIsMultiple(n, q);
    MultipleIsDouble(m, q);
  }

  lemma NearestIsMultiple(n: nat, q: nat) returns (m: nat)
    requires q > 0
    ensures Nearest(n, q) == m * q && m <= n / q + 1
  {
    m := if Nearest(n, q) == n / q * q then n / q else n / q + 1;
    assert (n / q + 1) * q == n / q * q + q;
  }

  /** Adding one to this double gives the double itself. */
  predicate IsStuck(x: nat) {
    x >= TWO_53 && (x >= 2 * TWO_53 || x % 4 == 0)
  }

  /** One more than a double is larger, unless it is stuck; then it is the double itself. */
  lemma OneMoreIff(x: nat)
    requires Double(x) == x
    ensures Double(x + 1) >= x
    ensures Double(x + 1) == x <==> IsStuck(x)
  {
    if x < TWO_53 {
      SmallIsExact(x + 1);
    } else {
      BigDouble(x);
      var q := Quantum(x);
      Unique(x + 1, q, x / q, 1);
    }
  }

  /** A double from 2^53 on is an even number of at least two apart from the others. */
  lemma BigDouble(x: nat)
    requires x >= TWO_53 && Double(x) == x
    ensures Quantum(x + 1) == Quantum(x) >= 2 && x == Quantum(x) * (x / Quantum(x))
    ensures Quantum(x) == 2 <==> x < 2 * TWO_53
  {
    var q := Quantum(x);
    IsMultiple(x, q);
    assert q == 2 * Quantum(x / 2);
    EvenMultiple(x, Quantum(x / 2));
    assert (x + 1) / 2 == x / 2;
  }

  lemma IsMultiple(x: nat, q: nat)
    requires q > 0 && Nearest(x, q) == x
    ensures x == q * (x / q)
  {
    assert x == q * (x / q) + x % q;
  }

  lemma EvenMultiple(x: nat, half: nat)
    requires half > 0 && x == 2 * half * (x / (2 * half))
    ensures x % 2 == 0
  {
    assert x == 2 * (half * (x / (2 * half)));
  }
}
