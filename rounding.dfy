/**
 * RING_RoundDown: rounding a requested capacity down to a power of two by
 * smearing the highest set bit into every lower position and then keeping
 * only the highest one.  `size_t` is taken to be 32 bits wide, the width the
 * five smearing steps (shifts 1, 2, 4, 8 and 16) cover.
 */
module Rounding {
  import opened Bits

  /** The source's bit smear, one line per statement. */
  function RoundDown(x: nat): nat
  {
    var x1 := Or(x, Shr(x, 1));
    var x2 := Or(x1, Shr(x1, 2));
    var x3 := Or(x2, Shr(x2, 4));
    var x4 := Or(x3, Shr(x3, 8));
    var x5 := Or(x4, Shr(x4, 16));
    x5 - Shr(x5, 1)
  }

  /** `x` is an `n`-bit number whose `m` highest bits are all set. */
  ghost predicate TopOnes(x: nat, n: nat, m: nat)
    requires m <= n
  {
    Pow2(n) - Pow2(n - m) <= x < Pow2(n)
  }

  lemma TopOnesAll(x: nat, n: nat)
    requires TopOnes(x, n, n)
    ensures x == Ones(n)
  {
  }

  /** Shifting right by `j` drops `j` bits and keeps the top ones that remain. */
  lemma TopOnesShr(x: nat, n: nat, m: nat, j: nat, n': nat, m': nat)
    requires m <= n && j <= n && TopOnes(x, n, m)
    requires n' == n - j && m' == Min(m, n - j)
    ensures TopOnes(Shr(x, j), n', m')
  {
    var p := Pow2(j);
    var a := Pow2(n - j);
    Pow2Add(n - j, j);
    assert Pow2(n) == a * p;
    DivUpper(x, a, p);
    if m <= n - j {
      var b := Pow2(n - m - j);
      Pow2Add(n - m - j, j);
      assert Pow2(n - m) == b * p;
      Pow2Mono(n - m - j, n - j);
      MulSub(a, b, p);
      DivLower(x, a - b, p);
    } else {
      Pow2Mono(n - m, j);
      MulSub(a, 1, p);
      DivLower(x, a - 1, p);
    }
  }

  /** `s` ones followed by `j` ones are `s + j` ones. */
  lemma OnesConcat(s: nat, j: nat, k: nat)
    requires s + j == k
    ensures Ones(s) * Pow2(j) + Ones(j) == Ones(k)
  {
    Pow2Add(s, j);
    MulSub(Pow2(s), 1, Pow2(j));
  }

  /** `k` ones above any `p`-bit number make an `n`-bit number with its top `k` bits set. */
  lemma OnesAbove(k: nat, p: nat, n: nat, low: nat)
    requires k + p == n && low < Pow2(p)
    ensures TopOnes(Ones(k) * Pow2(p) + low, n, k)
  {
    Pow2Add(k, p);
    MulSub(Pow2(k), 1, Pow2(p));
    assert n - k == p;
  }

  /** Shifting `j` ones right by `j` leaves nothing, and they are below `2^j`. */
  lemma OnesShr(j: nat)
    ensures Shr(Ones(j), j) == 0 && Ones(j) % Pow2(j) == Ones(j)
  {
    DivModUnique(Ones(j), Pow2(j), 0, Ones(j));
  }

  /**
   * A number split at a power of two is rebuilt from equal halves: only
   * substitution of equals, stated as a lemma so that the solver is handed
   * exactly these terms.
   */
  lemma Recombine(v: nat, hi: nat, lo: nat, p: nat, a: nat, b: nat, w: nat)
    requires v == hi * p + lo && hi == a && lo == b && a * p + b == w
    ensures v == w
  {
  }

  /** A number whose top `m >= s` bits are set, or-ed with `k - s` low ones, is all ones. */
  lemma HighOnes(x: nat, k: nat, m: nat, s: nat)
    requires s <= m <= k && TopOnes(x, k, m)
    ensures Or(x, Ones(k - s)) == Ones(k)
  {
    var j := k - s;
    var p := Pow2(j);
    OrSplit(x, Ones(j), j);
    TopOnesShr(x, k, m, j, s, s);
    TopOnesAll(Shr(x, j), s);
    OnesShr(j);
    OrZero(Ones(s));
    var hi := Or(Shr(x, j), Shr(Ones(j), j));
    assert hi == Ones(s);
    OrOnes(x % p, j);
    var lo := Or(x % p, Ones(j) % p);
    assert lo == Ones(j);
    OnesConcat(s, j, k);
    Recombine(Or(x, Ones(j)), hi, lo, p, Ones(s), Ones(j), Ones(k));
  }

  /** One smearing line `x | (x >> s)` doubles the run of top ones (up to the word). */
  lemma SmearStep(x: nat, n: nat, m: nat, s: nat)
    requires 1 <= s && 1 <= m <= n && (s <= m || m == n) && TopOnes(x, n, m)
    ensures TopOnes(Or(x, Shr(x, s)), n, Min(m + s, n))
  {
    var y := Shr(x, s);
    if m == n {
      TopOnesAll(x, n);
      DivShrink(x, Pow2(s));
      OrComm(x, y);
      OrOnes(y, n);
      assert Or(x, y) == Ones(n);
    } else {
      var k := Min(m + s, n);
      var p := n - k;
      var pp := Pow2(p);
      OrSplit(x, y, p);
      var low := Or(x % pp, y % pp);
      OrBound(x % pp, y % pp, p);
      var hx := Shr(x, p);
      TopOnesShr(x, n, m, p, k, m);
      ShrSwap(x, s, p);
      TopOnesShr(hx, k, m, s, k - s, k - s);
      TopOnesAll(Shr(hx, s), k - s);
      HighOnes(hx, k, m, s);
      var hi := Or(hx, Shr(y, p));
      assert hi == Ones(k);
      OnesAbove(k, p, n, low);
      Recombine(Or(x, y), hi, low, pp, Ones(k), low, Ones(k) * pp + low);
    }
  }

  /**
   * For every 32-bit `x > 0`, RoundDown gives the largest power of two not
   * above `x`: it is `2^log2(x)`, it is at most `x`, `x` is below twice it,
   * and every power of two up to `x` is up to it.
   */
  lemma RoundDownLargestPow2(x: nat)
    requires 0 < x < WORD
    ensures Log2(x) < 32 && RoundDown(x) == Pow2(Log2(x))
    ensures RoundDown(x) <= x < 2 * RoundDown(x)
    ensures forall k: nat :: Pow2(k) <= x ==> Pow2(k) <= RoundDown(x)
  {
    var n := Log2(x) + 1;
    Log2Bounds(x);
    Pow2Word();
    if n > 32 {
      Pow2Mono(32, n - 1);
      assert false;
    }
    assert TopOnes(x, n, 1);
    var x1 := Or(x, Shr(x, 1));
    SmearStep(x, n, 1, 1);
    var x2 := Or(x1, Shr(x1, 2));
    SmearStep(x1, n, Min(2, n), 2);
    var x3 := Or(x2, Shr(x2, 4));
    SmearStep(x2, n, Min(4, n), 4);
    var x4 := Or(x3, Shr(x3, 8));
    SmearStep(x3, n, Min(8, n), 8);
    var x5 := Or(x4, Shr(x4, 16));
    SmearStep(x4, n, Min(16, n), 16);
    TopOnesAll(x5, n);
    DivModUnique(Ones(n), 2, Ones(n - 1), 1);
    assert RoundDown(x) == Pow2(n - 1);
    forall k: nat | Pow2(k) <= x
      ensures Pow2(k) <= RoundDown(x)
    {
      if k > n - 1 {
        Pow2Mono(n, k);
      }
      Pow2Mono(k, n - 1);
    }
  }

  /** A capacity that already is a power of two is kept. */
  lemma RoundDownKeepsPow2(k: nat)
    requires k < 32
    ensures RoundDown(Pow2(k)) == Pow2(k)
  {
    Pow2Mono(k, 31);
    Pow2Word();
    RoundDownLargestPow2(Pow2(k));
    Log2OfPow2(k);
  }

  /** `x` is rounded to `2^k` exactly when `2^k <= x < 2^(k+1)`. */
  lemma RoundDownIs(x: nat, k: nat)
    requires 0 < x < WORD
    ensures RoundDown(x) == Pow2(k) <==> Pow2(k) <= x < 2 * Pow2(k)
  {
    RoundDownLargestPow2(x);
    var l := Log2(x);
    if Pow2(k) <= x < 2 * Pow2(k) {
      if l < k {
        Pow2Mono(l + 1, k);
      } else if l > k {
        Pow2Mono(k + 1, l);
      }
    }
  }

  /** The capacities the library's own size checks expect. */
  lemma RoundDownExamples()
    ensures RoundDown(5) == 4 && RoundDown(9) == 8 && RoundDown(16) == 16
    ensures RoundDown(17) == 16 && RoundDown(19) == 16 && RoundDown(35) == 32
  {
    assert Pow2(2) == 4 && Pow2(3) == 8 && Pow2(4) == 16 && Pow2(5) == 32;
    RoundDownIs(5, 2);
    RoundDownIs(9, 3);
    RoundDownIs(16, 4);
    RoundDownIs(17, 4);
    RoundDownIs(19, 4);
    RoundDownIs(35, 5);
  }
}
