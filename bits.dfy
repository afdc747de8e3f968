/**
 * The unsigned-integer bit operations the ring buffer uses on `size_t`
 * values, stated on `nat`: powers of two, right shift, bitwise `|` and `&`.
 * `|` and `&` are defined bit by bit from the least significant bit, so
 * they agree with C's operators on every value that fits the word.
 */
module Bits {

  function Min(a: int, b: int): (r: int)
    ensures r <= a && r <= b && (r == a || r == b)
  {
    if a < b then a else b
  }

  /** The number of `size_t` values on the 32-bit targets the library is written for. */
  const WORD: nat := 0x1_0000_0000

  /**
   * Conversion to `size_t` of a value that is at most one word away from
   * its range: wrap-around modulo 2^32.
   */
  function SizeT(v: int): (r: nat)
    requires -(WORD as int) <= v < WORD
    ensures r < WORD && r % WORD == v % WORD
  {
    if v < 0 then v + WORD else v
  }

  function Pow2(k: nat): (r: nat)
    ensures r >= 1
  {
    if k == 0 then 1 else 2 * Pow2(k - 1)
  }

  /** All ones in the `k` lowest bits. */
  function Ones(k: nat): nat
  {
    Pow2(k) - 1
  }

  /** `x >> k` on an unsigned word. */
  function Shr(x: nat, k: nat): nat
  {
    DivLower(x, 0, Pow2(k));
    x / Pow2(k)
  }

  /** `a | b` on unsigned words. */
  function Or(a: nat, b: nat): nat
    decreases a + b
  {
    if a == 0 && b == 0 then 0
    else 2 * Or(a / 2, b / 2) + (if a % 2 == 1 || b % 2 == 1 then 1 else 0)
  }

  /** `a & b` on unsigned words. */
  function And(a: nat, b: nat): nat
    decreases a + b
  {
    if a == 0 && b == 0 then 0
    else 2 * And(a / 2, b / 2) + (if a % 2 == 1 && b % 2 == 1 then 1 else 0)
  }

  /** Index of the highest set bit of a positive number. */
  function Log2(x: nat): nat
    requires x >= 1
  {
    if x < 2 then 0 else 1 + Log2(x / 2)
  }

  // ---------------------------------------------------------------------
  // Arithmetic facts about division by a positive number

  lemma MulMono(p: nat, a: nat, b: nat)
    requires a <= b
    ensures p * a <= p * b
  {
  }

  lemma DivModUnique(x: nat, d: nat, q: nat, r: nat)
    requires d > 0 && r < d && x == d * q + r
    ensures x / d == q && x % d == r
  {
    var q', r' := x / d, x % d;
    assert x == d * q' + r';
    if q' < q {
      MulMono(d, q', q - 1);
      assert false;
    } else if q' > q {
      MulMono(d, q + 1, q');
      assert false;
    }
  }

  lemma DivDiv(x: nat, p: nat, q: nat)
    requires p > 0 && q > 0
    ensures x / p / q == x / (p * q)
  {
    var a, r1 := x / p, x % p;
    var b, r2 := a / q, a % q;
    assert x == p * a + r1;
    assert a == q * b + r2;
    assert x == (p * q) * b + (p * r2 + r1);
    MulMono(p, r2, q - 1);
    assert p * (q - 1) == p * q - p;
    DivModUnique(x, p * q, b, p * r2 + r1);
  }

  lemma DivLower(x: nat, l: nat, p: nat)
    requires p > 0 && x >= l * p
    ensures x / p >= l
  {
    var q := x / p;
    assert x == p * q + x % p;
    if q < l {
      MulMono(p, q, l - 1);
      assert false;
    }
  }

  lemma Regroup(h: nat, p: nat, pp: nat, l: nat, b: nat)
    requires pp == 2 * p
    ensures 2 * (h * p + l) + b == h * pp + (2 * l + b)
  {
  }

  lemma MulSub(a: nat, b: nat, p: nat)
    requires b <= a
    ensures (a - b) * p == a * p - b * p
  {
  }

  lemma DivShrink(x: nat, p: nat)
    requires p > 0
    ensures x / p <= x
  {
    DivUpper(x, x + 1, p);
  }

  lemma DivUpper(x: nat, a: nat, p: nat)
    requires p > 0 && x < a * p
    ensures x / p < a
  {
  }

  /** Dropping the lowest bit of `x mod 2p` is the same as dropping it first. */
  lemma ModHalf(x: nat, p: nat, pp: nat)
    requires p > 0 && pp == 2 * p
    ensures (x % pp) / 2 == (x / 2) % p
    ensures (x % pp) % 2 == x % 2
    ensures x % pp == 2 * ((x / 2) % p) + x % 2
  {
    var q, r := x / pp, x % pp;
    assert x == pp * q + r;
    DivModUnique(r, 2, r / 2, r % 2);
    assert x == 2 * (p * q + r / 2) + r % 2;
    DivModUnique(x, 2, p * q + r / 2, r % 2);
    assert r / 2 < p;
    DivModUnique(x / 2, p, q, r / 2);
  }

  // ---------------------------------------------------------------------
  // Powers of two

  lemma {:induction false} Pow2Add(a: nat, b: nat)
    ensures Pow2(a + b) == Pow2(a) * Pow2(b)
  {
    if a > 0 {
      Pow2Add(a - 1, b);
    }
  }

  /** A 32-bit word holds `2^32` values. */
  lemma Pow2Word()
    ensures Pow2(32) == WORD
  {
    assert Pow2(4) == 16;
    Pow2Add(4, 4);
    Pow2Add(8, 8);
    Pow2Add(16, 16);
  }

  lemma {:induction false} Pow2Mono(a: nat, b: nat)
    requires a <= b
    ensures Pow2(a) <= Pow2(b)
  {
    if a < b {
      Pow2Mono(a, b - 1);
    }
  }

  lemma {:induction false} Log2Bounds(x: nat)
    requires x >= 1
    ensures Pow2(Log2(x)) <= x < Pow2(Log2(x) + 1)
  {
    if x >= 2 {
      Log2Bounds(x / 2);
    }
  }

  lemma {:induction false} Log2OfPow2(k: nat)
    ensures Log2(Pow2(k)) == k
  {
    if k > 0 {
      Log2OfPow2(k - 1);
      DivModUnique(Pow2(k), 2, Pow2(k - 1), 0);
    }
  }

  /** Halving first and then shifting by `j - 1` is shifting by `j`. */
  lemma ShrHalf(x: nat, j: nat)
    requires j > 0
    ensures Shr(x / 2, j - 1) == Shr(x, j)
  {
    var p := Pow2(j - 1);
    assert Pow2(j) == 2 * p;
    DivDiv(x, 2, p);
  }

  /** `x >> a >> b` is `x >> (a + b)`. */
  lemma ShrShr(x: nat, a: nat, b: nat)
    ensures Shr(Shr(x, a), b) == Shr(x, a + b)
  {
    Pow2Add(a, b);
    DivDiv(x, Pow2(a), Pow2(b));
  }

  /** Two right shifts can be done in either order. */
  lemma ShrSwap(x: nat, a: nat, b: nat)
    ensures Shr(Shr(x, a), b) == Shr(Shr(x, b), a)
  {
    ShrShr(x, a, b);
    ShrShr(x, b, a);
    assert a + b == b + a;
  }

  // ---------------------------------------------------------------------
  // Bitwise or

  lemma OrStep(a: nat, b: nat)
    ensures Or(a, b) == 2 * Or(a / 2, b / 2) + (if a % 2 == 1 || b % 2 == 1 then 1 else 0)
  {
  }

  lemma {:induction false} OrComm(a: nat, b: nat)
    ensures Or(a, b) == Or(b, a)
    decreases a + b
  {
    if a != 0 || b != 0 {
      OrComm(a / 2, b / 2);
    }
  }

  lemma {:induction false} OrZero(a: nat)
    ensures Or(a, 0) == a
  {
    if a != 0 {
      OrZero(a / 2);
    }
  }

  lemma {:induction false} OrBound(a: nat, b: nat, n: nat)
    requires a < Pow2(n) && b < Pow2(n)
    ensures Or(a, b) < Pow2(n)
  {
    if n > 0 && (a != 0 || b != 0) {
      OrBound(a / 2, b / 2, n - 1);
    }
  }

  /** Or-ing anything narrower than `k` bits into `k` ones leaves `k` ones. */
  lemma {:induction false} OrOnes(v: nat, k: nat)
    requires v < Pow2(k)
    ensures Or(v, Ones(k)) == Ones(k)
  {
    if k > 0 {
      assert Ones(k) == 2 * Ones(k - 1) + 1;
      DivModUnique(Ones(k), 2, Ones(k - 1), 1);
      OrOnes(v / 2, k - 1);
    }
  }

  /** `|` works independently above and below bit `j`. */
  lemma {:induction false} OrSplit(a: nat, b: nat, j: nat)
    ensures Or(a, b) == Or(Shr(a, j), Shr(b, j)) * Pow2(j) + Or(a % Pow2(j), b % Pow2(j))
  {
    if j > 0 {
      var p, pp := Pow2(j - 1), Pow2(j);
      assert pp == 2 * p;
      OrSplit(a / 2, b / 2, j - 1);
      ShrHalf(a, j);
      ShrHalf(b, j);
      var high := Or(Shr(a, j), Shr(b, j));
      var low := Or((a / 2) % p, (b / 2) % p);
      var bit := if a % 2 == 1 || b % 2 == 1 then 1 else 0;
      ModHalf(a, p, pp);
      ModHalf(b, p, pp);
      OrStep(a % pp, b % pp);
      OrStep(a, b);
      Regroup(high, p, pp, low, bit);
    }
  }

  // ---------------------------------------------------------------------
  // Bitwise and

  lemma {:induction false} AndZero(a: nat)
    ensures And(a, 0) == 0
  {
    if a != 0 {
      AndZero(a / 2);
    }
  }

  /** Masking with `2^k - 1` keeps the remainder modulo `2^k`. */
  lemma {:induction false} AndOnesIsMod(v: nat, k: nat)
    ensures And(v, Ones(k)) == v % Pow2(k)
  {
    if k == 0 {
      AndZero(v);
    } else {
      assert Ones(k) == 2 * Ones(k - 1) + 1;
      DivModUnique(Ones(k), 2, Ones(k - 1), 1);
      AndOnesIsMod(v / 2, k - 1);
      ModHalf(v, Pow2(k - 1), Pow2(k));
    }
  }

  /** Reducing modulo a multiple of `p` first does not change the remainder modulo `p`. */
  lemma ModOfMod(v: nat, p: nat, q: nat, pq: nat)
    requires p > 0 && q > 0 && pq == p * q
    ensures (v % pq) % p == v % p
  {
    var big, rest := v / pq, v % pq;
    var a, b := rest / p, rest % p;
    assert v == pq * big + rest;
    assert rest == p * a + b;
    assert pq * big == p * (q * big);
    assert v == p * (q * big + a) + b;
    DivModUnique(v, p, q * big + a, b);
  }

  /**
   * Masking with `2^k - 1` for `k <= 32` ignores a wrap-around of the
   * 32-bit `size_t` before it: `((v mod 2^32) & (2^k - 1)) == (v & (2^k - 1))`.
   */
  lemma MaskIgnoresWordWrap(v: nat, k: nat)
    requires k <= 32
    ensures And(v % WORD, Ones(k)) == And(v, Ones(k))
  {
    Pow2Add(k, 32 - k);
    Pow2Word();
    ModOfMod(v, Pow2(k), Pow2(32 - k), WORD);
    AndOnesIsMod(v % WORD, k);
    AndOnesIsMod(v, k);
  }
}
