/**
 Machine words as natural numbers: powers of two, the bitwise operators the headers use, two's
 complement, and the mask rounding `MY_ALIGN` of `my_global.h`.
 */
module Bits {
  type byte = x: int | 0 <= x < 256

  function Pow2(k: nat): (p: nat)
    ensures p >= 1
  {
    if k == 0 then 1 else 2 * Pow2(k - 1)
  }

  /** C's `&` on `w`-bit words. */
  function And(w: nat, a: nat, b: nat): nat {
    if w == 0 then 0 else 2 * And(w - 1, a / 2, b / 2) + if a % 2 == 1 && b % 2 == 1 then 1 else 0
  }

  /** C's `|` on `w`-bit words. */
  function Or(w: nat, a: nat, b: nat): nat {
    if w == 0 then 0 else 2 * Or(w - 1, a / 2, b / 2) + if a % 2 == 1 || b % 2 == 1 then 1 else 0
  }

  /** C's `~` on `w`-bit words. */
  function Not(w: nat, a: nat): nat
    requires a < Pow2(w)
  {
    Pow2(w) - 1 - a
  }

  function U8(x: int): byte { x % 0x100 }

  function U16(x: int): nat { x % 0x1_0000 }

  function U32(x: int): nat { x % 0x1_0000_0000 }

  function U64(x: int): nat { x % 0x1_0000_0000_0000_0000 }

  /** The signed value of a two's-complement word among `range` many. */
  function Signed(range: nat, x: int): int
    requires range > 0
  {
    var u := x % range;
    if u >= range / 2 then u - range else u
  }

  /** The one number in the signed range that is `x` modulo the number of words. */
  lemma {:induction false} SignedIs(half: nat, x: int, v: int)
    requires half > 0 && 0 <= v + half < 2 * half
    ensures Signed(2 * half, x) == v <==> (x - v) % (2 * half) == 0
  {
    var m, u := 2 * half, x % (2 * half);
    assert x == m * (x / m) + u;
    var s := Signed(m, x);
    var q := if u >= half then x / m + 1 else x / m;
    assert m * (x / m + 1) == m * (x / m) + m;
    assert x - s == m * q;
    ModUnique(x - s, m, q, 0);
    if (x - v) % m == 0 {
      var k := (x - v) / m;
      assert x - v == m * k;
      assert s - v == m * (k - q);
      assert m * -(k - q) == v - s;
      SmallMultiple(m, k - q);
    }
  }

  lemma {:induction false} SmallMultiple(m: nat, c: int)
    requires m * c < m && m * -c < m
    ensures c == 0
  {
    if c >= 1 {
      AtLeastOne(m, c);
    } else if c <= -1 {
      AtLeastOne(m, -c);
    }
  }

  lemma {:induction false} PowAdd(j: nat, k: nat)
    ensures Pow2(j + k) == Pow2(j) * Pow2(k)
  {
    if j > 0 {
      PowAdd(j - 1, k);
      assert 2 * (Pow2(j - 1) * Pow2(k)) == (2 * Pow2(j - 1)) * Pow2(k);
    }
  }

  lemma {:induction false} PowMonotone(j: nat, k: nat)
    requires j <= k
    ensures Pow2(j) <= Pow2(k)
  {
    if j < k {
      PowMonotone(j, k - 1);
    }
  }

  /** Halving commutes with reducing modulo a power of two. */
  lemma {:induction false} HalfMod(a: nat, p: nat)
    requires p >= 1
    ensures a % (2 * p) == 2 * (a / 2 % p) + a % 2
  {
    var q, r := a / 2 / p, a / 2 % p;
    assert a / 2 == p * q + r;
    assert a == (2 * p) * q + (2 * r + a % 2);
    ModUnique(a, 2 * p, q, 2 * r + a % 2);
  }

  lemma {:induction false} AtLeastOne(m: int, c: int)
    requires m > 0 && c >= 1
    ensures m * c >= m
  {
    assert m * c == m + m * (c - 1);
    assert m * (c - 1) >= 0;
  }

  lemma {:induction false} ModUnique(a: int, m: int, q: int, r: int)
    requires m > 0 && a == m * q + r && 0 <= r < m
    ensures a % m == r && a / m == q
  {
    var q', r' := a / m, a % m;
    assert a == m * q' + r';
    assert m * (q - q') == m * q - m * q' && m * (q' - q) == m * q' - m * q;
    if q > q' {
      AtLeastOne(m, q - q');
    } else if q < q' {
      AtLeastOne(m, q' - q);
    }
  }

  /** The number made of the low `k` bits. */
  function LowBits(k: nat, a: nat): nat {
    if k == 0 then 0 else 2 * LowBits(k - 1, a / 2) + a % 2
  }

  lemma {:induction false} LowBitsIsMod(k: nat, a: nat)
    ensures LowBits(k, a) == a % Pow2(k)
  {
    if k > 0 {
      LowBitsIsMod(k - 1, a / 2);
      HalfMod(a, Pow2(k - 1));
    }
  }

  /** The bits from `k` up to `v`: masking with them leaves what lies between. */
  lemma {:induction false} AndBetween(w: nat, v: nat, k: nat, a: nat)
    requires k <= v <= w && Pow2(k) <= Pow2(v)
    ensures And(w, a, Pow2(v) - Pow2(k)) == LowBits(v, a) - LowBits(k, a)
  {
    if v == 0 {
      AndZero(w, a);
    } else if k == 0 {
      AndBetween(w - 1, v - 1, 0, a / 2);
      AndOdd(w, a, Pow2(v - 1) - 1);
      assert Pow2(v) - Pow2(k) == 2 * (Pow2(v - 1) - 1) + 1;
    } else {
      PowMonotone(k - 1, v - 1);
      AndBetween(w - 1, v - 1, k - 1, a / 2);
      AndEven(w, a, Pow2(v - 1) - Pow2(k - 1));
      assert Pow2(v) - Pow2(k) == 2 * (Pow2(v - 1) - Pow2(k - 1));
    }
  }

  lemma {:induction false} AndZero(w: nat, a: nat)
    ensures And(w, a, 0) == 0
  {
    if w > 0 {
      AndZero(w - 1, a / 2);
    }
  }

  lemma {:induction false} AndEven(w: nat, a: nat, half: nat)
    requires w > 0
    ensures And(w, a, 2 * half) == 2 * And(w - 1, a / 2, half)
  {
  }

  lemma {:induction false} AndOdd(w: nat, a: nat, half: nat)
    requires w > 0
    ensures And(w, a, 2 * half + 1) == 2 * And(w - 1, a / 2, half) + a % 2
  {
  }

  /** Masking with the complement of 2^k - 1 clears exactly the remainder modulo 2^k. */
  lemma {:induction false} AndMask(w: nat, k: nat, a: nat)
    requires k <= w && a < Pow2(w) && Pow2(k) <= Pow2(w)
    ensures And(w, a, Pow2(w) - Pow2(k)) == a - a % Pow2(k)
  {
    AndBetween(w, w, k, a);
    LowBitsIsMod(k, a);
    LowBitsIsMod(w, a);
    ModUnique(a, Pow2(w), 0, a);
  }

  /** Words with no bit in common: `|` adds. */
  lemma {:induction false} OrDisjoint(w: nat, k: nat, a: nat, b: nat)
    requires k <= w && a % Pow2(k) == 0 && b < Pow2(k) && a + b < Pow2(w)
    ensures Or(w, a, b) == a + b
  {
    if k > 0 {
      HalfMod(a, Pow2(k - 1));
      OrDisjoint(w - 1, k - 1, a / 2, b / 2);
    } else if w > 0 {
      assert a / 2 % Pow2(0) == 0;
      OrDisjoint(w - 1, 0, a / 2, 0);
    }
  }

  /** `MY_ALIGN(A, L)` on `w`-bit unsigned operands. */
  function MyAlign(w: nat, a: nat, l: nat): nat
    requires 1 <= l <= Pow2(w)
  {
    And(w, (a + l - 1) % Pow2(w), Not(w, l - 1))
  }

  /** The rounding up used for `start_words`: divide, then multiply. */
  function RoundUp(a: nat, l: nat): nat
    requires l >= 1
  {
    (a + l - 1) / l * l
  }

  predicate MultipleOf(x: int, l: nat)
    requires l >= 1
  {
    x % l == 0
  }

  /** Without overflow, for every power of two, mask rounding is divide-and-multiply rounding. */
  lemma {:induction false} MyAlignIsRoundUp(w: nat, k: nat, a: nat)
    requires k <= w && Pow2(k) <= Pow2(w) && a + Pow2(k) - 1 < Pow2(w)
    ensures MyAlign(w, a, Pow2(k)) == RoundUp(a, Pow2(k))
  {
    var l := Pow2(k);
    var x := a + l - 1;
    assert x % Pow2(w) == x by {
      ModUnique(x, Pow2(w), 0, x);
    }
    AndMask(w, k, x);
    DivMul(x, l);
  }

  lemma {:induction false} DivMul(x: int, l: int)
    requires l > 0
    ensures x - x % l == x / l * l
  {
    assert x == l * (x / l) + x % l;
  }

  lemma {:induction false} RoundUpBelow(a: nat, l: nat, m: nat)
    requires l >= 1 && m >= a && MultipleOf(m, l)
    ensures RoundUp(a, l) <= m
  {
    var q, n := (a + l - 1) / l, m / l;
    DivMul(a + l - 1, l);
    DivMul(m, l);
    assert (q - n) * l == q * l - n * l;
    if q > n {
      AtLeastOne(l, q - n);
    }
  }

  /** Rounding up gives the least multiple of `l` that is not below `a`. */
  lemma {:induction false} RoundUpIsLeast(a: nat, l: nat)
    requires l >= 1
    ensures MultipleOf(RoundUp(a, l), l) && a <= RoundUp(a, l) < a + l
    ensures forall m: nat :: m >= a && MultipleOf(m, l) ==> RoundUp(a, l) <= m
  {
    var q := (a + l - 1) / l;
    DivMul(a + l - 1, l);
    ModUnique(q * l, l, q, 0);
    forall m: nat | m >= a && MultipleOf(m, l) ensures RoundUp(a, l) <= m {
      RoundUpBelow(a, l, m);
    }
  }

  /** The law of `MY_ALIGN`: the least multiple of the power of two that is >= A, when nothing overflows. */
  lemma {:induction false} MyAlignIsLeastMultiple(w: nat, k: nat, a: nat)
    requires k <= w && Pow2(k) <= Pow2(w) && a + Pow2(k) - 1 < Pow2(w)
    ensures var r := MyAlign(w, a, Pow2(k));
            && MultipleOf(r, Pow2(k)) && a <= r < a + Pow2(k)
            && forall m: nat :: m >= a && MultipleOf(m, Pow2(k)) ==> r <= m
  {
    MyAlignIsRoundUp(w, k, a);
    RoundUpIsLeast(a, Pow2(k));
  }

  /** With overflow the sum wraps and the result falls below `a`: the condition above is exact. */
  lemma {:induction false} MyAlignOverflow(w: nat, k: nat, a: nat)
    requires k <= w && Pow2(k) <= Pow2(w) && a < Pow2(w) <= a + Pow2(k) - 1
    ensures MyAlign(w, a, Pow2(k)) < a
  {
    var l := Pow2(k);
    var x := a + l - 1 - Pow2(w);
    ModUnique(a + l - 1, Pow2(w), 1, x);
    AndMask(w, k, x);
    if l == Pow2(w) {
      assert x < a;
    }
  }

  /** `MY_ALIGN(A, L)` when L is unsigned and only `v` bits wide: its complement has no bits above those. */
  function MyAlignNarrow(w: nat, v: nat, a: nat, l: nat): nat
    requires 1 <= l <= Pow2(v)
  {
    And(w, (a + l - 1) % Pow2(w), Not(v, l - 1))
  }

  /** A narrower L cuts the result to its own width: right if and only if the rounded address fits it. */
  lemma {:induction false} MyAlignNarrowIff(w: nat, v: nat, k: nat, a: nat)
    requires k <= v <= w && Pow2(k) <= Pow2(v) <= Pow2(w) && a + Pow2(k) - 1 < Pow2(w)
    ensures MyAlignNarrow(w, v, a, Pow2(k)) == RoundUp(a, Pow2(k)) <==> RoundUp(a, Pow2(k)) < Pow2(v)
  {
    var l := Pow2(k);
    var x := a + l - 1;
    ModUnique(x, Pow2(w), 0, x);
    AndBetween(w, v, k, x);
    LowBitsIsMod(v, x);
    LowBitsIsMod(k, x);
    DivMul(x, l);
    CutIsExactIff(x, l, Pow2(v), Pow2(v - k)) by {
      PowAdd(k, v - k);
    }
  }

  /** Cutting to a multiple `p` of `l` first loses nothing exactly below `p`. */
  lemma {:induction false} CutIsExactIff(x: nat, l: nat, p: nat, c: nat)
    requires l > 0 && c > 0 && p == l * c
    ensures x % p - x % l == x - x % l <==> x - x % l < p
  {
    var q := x / l;
    assert x == l * q + x % l;
    if x < p {
      ModUnique(x, p, 0, x);
    } else {
      if q < c {
        MulMonotone(l, q + 1, c);
      }
      MulMonotone(l, c, q);
    }
  }

  lemma {:induction false} MulMonotone(l: nat, a: int, b: int)
    requires a <= b
    ensures l * a <= l * b
  {
    assert l * b - l * a == l * (b - a);
  }
}
