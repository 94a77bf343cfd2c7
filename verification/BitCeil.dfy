/** `str_append_bit_ceil`: the smallest power of two, at least 16, that holds a request, found by
    smearing the top bit of a 32-bit word downwards. */
module BitCeil {

  /** The longest String and its terminator. */
  const MAX_REQUEST: nat := 0x8000_0000

  function Pow2(n: nat): (r: nat)
    ensures r >= 1
  {
    if n == 0 then 1 else 2 * Pow2(n - 1)
  }

  /** Bitwise or. */
  function Or(a: nat, b: nat): nat
    decreases a + b
  {
    if a == 0 then b else if b == 0 then a
    else 2 * Or(a / 2, b / 2) + if a % 2 == 1 || b % 2 == 1 then 1 else 0
  }

  /** `v >> k`. */
  function Shr(v: nat, k: nat): nat {
    if k == 0 then v else Shr(v / 2, k - 1)
  }

  /** `v |= v >> k`. */
  function Smear(v: nat, k: nat): nat {
    Or(v, Shr(v, k))
  }

  function Ceil(needed: nat): nat {
    if needed <= 16 then 16
    else Smear(Smear(Smear(Smear(Smear(needed - 1, 1), 2), 4), 8), 16) + 1
  }

  // ----- shifts -----

  /** `k` one bits. */
  function Ones(k: nat): (r: nat)
    ensures r == Pow2(k) - 1
  {
    if k == 0 then 0 else 2 * Ones(k - 1) + 1
  }

  lemma {:induction false} ShrShr(v: nat, a: nat, b: nat)
    ensures Shr(Shr(v, a), b) == Shr(v, a + b)
  {
    if a > 0 {
      ShrShr(v / 2, a - 1, b);
    }
  }

  lemma {:induction false} OnesShr(m: nat, k: nat)
    requires k <= m
    ensures Shr(Ones(m), k) == Ones(m - k)
  {
    if k > 0 {
      OnesShr(m - 1, k - 1);
    }
  }

  lemma {:induction false} ShrZero(k: nat)
    ensures Shr(0, k) == 0
  {
    if k > 0 {
      ShrZero(k - 1);
    }
  }

  lemma OrHalf(a: nat, b: nat)
    ensures Or(a, b) / 2 == Or(a / 2, b / 2)
  {
  }

  lemma {:induction false} OrShr(a: nat, b: nat, k: nat)
    ensures Shr(Or(a, b), k) == Or(Shr(a, k), Shr(b, k))
  {
    if k > 0 {
      OrHalf(a, b);
      OrShr(a / 2, b / 2, k - 1);
    }
  }

  lemma OrNone(a: nat)
    ensures Or(a, 0) == a
  {
  }

  lemma OrStep(a: nat, b: nat)
    requires b % 2 == 1
    ensures Or(a, b) == 2 * Or(a / 2, b / 2) + 1
  {
  }

  lemma OnesHalf(k: nat)
    requires k > 0
    ensures Ones(k) % 2 == 1 && Ones(k) / 2 == Ones(k - 1)
  {
  }

  /** Under a run of ones, filling the low bits makes a longer run. */
  lemma {:induction false} OrOnes(a: nat, m: nat, k: nat)
    requires Shr(a, k) == Ones(m)
    ensures Or(a, Ones(k)) == Ones(m + k)
    decreases k
  {
    if k == 0 {
      OrNone(a);
    } else {
      OrOnes(a / 2, m, k - 1);
      OnesHalf(k);
      OrStep(a, Ones(k));
    }
  }

  // ----- smearing -----

  /** `v` fits in `n` bits and its top `m` bits of them are set. */
  ghost predicate Top(v: nat, n: nat, m: nat) {
    m <= n && Shr(v, n - m) == Ones(m)
  }

  /** A value with its top `m` bits set and shifted down by `m` fills the next `m`, or all the rest. */
  lemma SmearTop(v: nat, n: nat, m: nat)
    requires Top(v, n, m) && m > 0
    ensures Top(Smear(v, m), n, if 2 * m <= n then 2 * m else n)
  {
    var low := if 2 * m <= n then n - 2 * m else 0;
    var width := n - m - low;
    OrShr(v, Shr(v, m), low);
    ShrShr(v, m, low);
    ShrShr(v, low, width);
    // what is shifted in is all ones
    ShrShr(v, n - m, m - width);
    OnesShr(m, m - width);
    OrOnes(Shr(v, low), m, width);
  }

  /** Smearing by `k` with at least `k` top bits set, or with everything set already. */
  lemma SmearMore(v: nat, n: nat, k: nat)
    requires k > 0 && Top(v, n, if k <= n then k else n)
    ensures Top(Smear(v, k), n, if 2 * k <= n then 2 * k else n)
  {
    if k <= n {
      SmearTop(v, n, k);
    } else {
      ShrShr(v, n, k - n);
      OnesShr(n, n);
      ShrZero(k - n);
      OrNone(v);
    }
  }

  /** Five smears fill everything below the top bit of a 32-bit word. */
  lemma SmearAll(v: nat, n: nat)
    requires Top(v, n, 1) && 0 < n <= 32
    ensures Smear(Smear(Smear(Smear(Smear(v, 1), 2), 4), 8), 16) == Ones(n)
  {
    var v1 := Smear(v, 1);
    var v2 := Smear(v1, 2);
    var v3 := Smear(v2, 4);
    var v4 := Smear(v3, 8);
    SmearMore(v, n, 1);
    SmearMore(v1, n, 2);
    SmearMore(v2, n, 4);
    SmearMore(v3, n, 8);
    SmearMore(v4, n, 16);
  }

  lemma {:induction false} TopBit(v: nat) returns (n: nat)
    requires v > 0
    ensures n > 0 && Pow2(n - 1) <= v < Pow2(n) && Top(v, n, 1)
  {
    if v == 1 {
      n := 1;
    } else {
      var k := TopBit(v / 2);
      n := k + 1;
    }
  }

  lemma {:induction false} Pow2Mono(a: nat, b: nat)
    requires a <= b
    ensures Pow2(a) <= Pow2(b)
  {
    if a < b {
      Pow2Mono(a, b - 1);
    }
  }

  ghost predicate PowerOfTwo(p: nat) {
    exists n: nat :: p == Pow2(n)
  }

  /** The smallest power of two that is at least 16 and at least the request, for every request a
      String can make. */
  lemma CeilIsLeast(needed: nat)
    requires needed <= MAX_REQUEST
    ensures PowerOfTwo(Ceil(needed)) && Ceil(needed) >= needed && Ceil(needed) >= 16
    ensures forall p: nat :: PowerOfTwo(p) && p >= 16 && p >= needed ==> p >= Ceil(needed)
  {
    if needed <= 16 {
      assert Pow2(4) == 16;
    } else {
      var n := CeilPower(needed);
      forall p: nat | PowerOfTwo(p) && p >= 16 && p >= needed ensures p >= Ceil(needed) {
        PowerAbove(p, n);
      }
    }
  }

  lemma CeilPower(needed: nat) returns (n: nat)
    requires 16 < needed <= MAX_REQUEST
    ensures n > 0 && Ceil(needed) == Pow2(n) && Pow2(n - 1) < needed <= Pow2(n)
  {
    n := TopBit(needed - 1);
    if n > 31 {
      Pow2Mono(31, n - 1);
      Pow31();
    }
    SmearAll(needed - 1, n);
  }

  lemma Pow31()
    ensures Pow2(31) == MAX_REQUEST
  {
    assert Pow2(8) == 256;
    assert Pow2(16) == 65536;
    assert Pow2(24) == 0x100_0000;
  }

  lemma PowerAbove(p: nat, n: nat)
    requires PowerOfTwo(p) && n > 0 && p > Pow2(n - 1)
    ensures p >= Pow2(n)
  {
    var k: nat :| p == Pow2(k);
    if k < n {
      Pow2Mono(k, n - 1);
    } else {
      Pow2Mono(n, k);
    }
  }

  // ----- the simple form -----

  /** Doubles `c` until it holds `n`. */
  function DoubleUp(c: nat, n: nat): (r: nat)
    requires c > 0
    ensures r >= n && r >= c
    decreases n - c
  {
    if c >= n then c else DoubleUp(2 * c, n)
  }

  /** The capacity of a geometric String that needs `n` bytes. */
  function Capacity(n: nat): nat {
    DoubleUp(16, n)
  }

  lemma {:induction false} DoubleUpLeast(k: nat, n: nat)
    ensures PowerOfTwo(DoubleUp(Pow2(k), n))
    ensures forall p: nat :: PowerOfTwo(p) && p >= Pow2(k) && p >= n ==> p >= DoubleUp(Pow2(k), n)
    decreases n - Pow2(k)
  {
    if Pow2(k) < n {
      DoubleUpLeast(k + 1, n);
      forall p: nat | PowerOfTwo(p) && p >= Pow2(k) && p >= n ensures p >= DoubleUp(Pow2(k), n) {
        PowerAbove(p, k + 1);
      }
    }
  }

  /** The bit smearing and the doubling agree, for every request a String can make. */
  lemma CeilIsCapacity(needed: nat)
    requires needed <= MAX_REQUEST
    ensures Ceil(needed) == Capacity(needed)
  {
    CeilIsLeast(needed);
    assert Pow2(4) == 16;
    DoubleUpLeast(4, needed);
  }

  /** `str_append_bit_ceil`. */
  method RoundUp(needed: nat) returns (r: nat)
    requires needed <= MAX_REQUEST
    ensures r == Capacity(needed)
  {
    CeilIsCapacity(needed);
    r := Ceil(needed);
  }

  lemma {:induction false} DoubleUpMono(c: nat, a: nat, b: nat)
    requires c > 0 && a <= b
    ensures DoubleUp(c, a) <= DoubleUp(c, b)
    decreases b - c
  {
    if c < b {
      DoubleUpMono(2 * c, a, b);
    }
  }

  /** A request the capacity holds gets the same. */
  lemma {:induction false} DoubleUpStays(c: nat, a: nat, b: nat)
    requires c > 0 && a <= b <= DoubleUp(c, a)
    ensures DoubleUp(c, b) == DoubleUp(c, a)
    decreases a - c
  {
    if c < a {
      DoubleUpStays(2 * c, a, b);
    }
  }

  /** A request the capacity does not hold gets at least twice as much. */
  lemma {:induction false} DoubleUpTwice(c: nat, a: nat, b: nat)
    requires c > 0 && DoubleUp(c, a) < b
    ensures 2 * DoubleUp(c, a) <= DoubleUp(c, b)
    decreases b - c
  {
    if c < a {
      DoubleUpTwice(2 * c, a, b);
    }
  }

  lemma {:induction false} DoubleUpLinear(c: nat, n: nat)
    requires c > 0
    ensures DoubleUp(c, n) <= c + 2 * n
    decreases n - c
  {
    if c < n {
      DoubleUpUnder(c, n);
    }
  }

  lemma {:induction false} DoubleUpUnder(c: nat, n: nat)
    requires 0 < c < n
    ensures DoubleUp(c, n) < 2 * n
    decreases n - c
  {
    if 2 * c < n {
      DoubleUpUnder(2 * c, n);
    }
  }
}
