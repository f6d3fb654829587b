/** Machine integers and the bit operations the address code uses, on unbounded naturals.
    Everything is defined by halving, so proofs go by induction on the number of bits. */
module Bits {
  newtype u32 = x: int | 0 <= x < 0x1_0000_0000
  newtype u64 = x: int | 0 <= x < 0x1_0000_0000_0000_0000

  function Pow2(k: nat): (p: nat)
    ensures p > 0
  {
    if k == 0 then 1 else 2 * Pow2(k - 1)
  }

  ghost predicate Aligned(n: nat, k: nat) {
    n % Pow2(k) == 0
  }

  /** Number of trailing zero bits of a non-zero word. */
  function TrailingZeros(n: nat): nat
    requires n > 0
  {
    if n % 2 == 1 then 0 else 1 + TrailingZeros(n / 2)
  }

  function BitLength(n: nat): nat {
    if n == 0 then 0 else 1 + BitLength(n / 2)
  }

  /** Bitwise conjunction. */
  function And(x: nat, y: nat): nat {
    if x == 0 || y == 0 then 0 else (x % 2) * (y % 2) + 2 * And(x / 2, y / 2)
  }

  function SaturatingSub(a: nat, b: nat): nat {
    if a >= b then a - b else 0
  }

  /** `!0 << s` on a word of `width` bits. */
  function OnesShiftedLeft(width: nat, s: nat): nat {
    ((Pow2(width) - 1) * Pow2(s)) % Pow2(width)
  }

  // ----- arithmetic of quotients and remainders

  lemma MulAtLeast(a: int, d: int)
    requires a >= 1 && d > 0
    ensures a * d >= d
  {
  }

  lemma QuotientUnique(d: int, q: int, r: int, q': int, r': int)
    requires q * d + r == q' * d + r' && 0 <= r < d && 0 <= r' < d
    ensures q == q' && r == r'
  {
    if q > q' {
      MulAtLeast(q - q', d);
    } else if q < q' {
      MulAtLeast(q' - q, d);
    }
  }

  lemma DivModUnique(n: int, d: int, q: int, r: int)
    requires d > 0 && n == q * d + r && 0 <= r < d
    ensures n / d == q && n % d == r
  {
    QuotientUnique(d, q, r, n / d, n % d);
  }

  lemma ModSmall(n: nat, d: nat)
    requires n < d
    ensures n % d == n
  {
    DivModUnique(n, d, 0, n);
  }

  lemma DivSmall(n: nat, d: nat)
    requires n < d
    ensures n / d == 0
  {
    DivModUnique(n, d, 0, n);
  }

  lemma SameQuotient(x: nat, y: nat, p: nat)
    requires p > 0
    ensures x - x % p == y - y % p <==> x / p == y / p
  {
    if x - x % p == y - y % p {
      assert x == (x / p) * p + x % p && y == (y / p) * p + y % p;
      QuotientUnique(p, x / p, 0, y / p, 0);
    }
  }

  lemma SameQuotientAligned(x: nat, b: nat, p: nat)
    requires p > 0 && b % p == 0
    ensures x / p == b / p <==> b <= x < b + p
  {
    assert b == (b / p) * p && x == (x / p) * p + x % p;
    if b <= x < b + p {
      DivModUnique(x, p, b / p, x - b);
    }
  }

  lemma ModHalve(n: nat, p: nat)
    requires p > 0
    ensures n % (2 * p) == 2 * ((n / 2) % p) + n % 2
    ensures n / (2 * p) == (n / 2) / p
  {
    var q, s := (n / 2) / p, (n / 2) % p;
    assert n / 2 == q * p + s;
    assert n == q * (2 * p) + (2 * s + n % 2);
    DivModUnique(n, 2 * p, q, 2 * s + n % 2);
  }

  lemma AlignedHalve(n: nat, k: nat)
    requires k > 0
    ensures Aligned(n, k) <==> n % 2 == 0 && Aligned(n / 2, k - 1)
  {
    ModHalve(n, Pow2(k - 1));
  }

  lemma {:induction false} Pow2Monotone(j: nat, k: nat)
    requires j < k
    ensures Pow2(j) < Pow2(k)
  {
    if j + 1 < k {
      Pow2Monotone(j, k - 1);
    }
  }

  lemma {:induction false} Pow2Add(j: nat, k: nat)
    ensures Pow2(j + k) == Pow2(j) * Pow2(k)
  {
    if j == 0 {
    } else {
      Pow2Add(j - 1, k);
    }
  }

  lemma Pow2Values()
    ensures Pow2(24) == 0x100_0000 && Pow2(30) == 0x4000_0000 && Pow2(31) == 0x8000_0000 && Pow2(32) == 0x1_0000_0000
  {
    assert Pow2(8) == 256;
    Pow2Add(8, 8);
    Pow2Add(8, 16);
    Pow2Add(16, 16);
  }

  // ----- the laminar family of aligned blocks

  lemma {:induction false} AlignedDown(n: nat, j: nat, k: nat)
    requires j <= k && Aligned(n, k)
    ensures Aligned(n, j)
    decreases k
  {
    if j > 0 {
      AlignedHalve(n, k);
      AlignedHalve(n, j);
      AlignedDown(n / 2, j - 1, k - 1);
    }
  }

  /** Distinct multiples of a power of two lie at least that power apart. */
  lemma {:induction false} NextMultiple(x: nat, y: nat, k: nat)
    requires Aligned(x, k) && Aligned(y, k) && x < y
    ensures x + Pow2(k) <= y
    decreases k
  {
    if k > 0 {
      AlignedHalve(x, k);
      AlignedHalve(y, k);
      NextMultiple(x / 2, y / 2, k - 1);
    }
  }

  lemma {:induction false} AlignedPlus(x: nat, k: nat)
    requires Aligned(x, k)
    ensures Aligned(x + Pow2(k), k)
    decreases k
  {
    if k > 0 {
      AlignedHalve(x, k);
      AlignedHalve(x + Pow2(k), k);
      AlignedPlus(x / 2, k - 1);
      assert (x + Pow2(k)) / 2 == x / 2 + Pow2(k - 1);
    }
  }

  lemma AlignedPow2(k: nat)
    ensures Aligned(Pow2(k), k)
  {
    AlignedPlus(0, k);
  }

  /** Two overlapping aligned blocks are nested: the smaller lies inside the larger. */
  lemma Laminar(x: nat, j: nat, y: nat, k: nat)
    requires Aligned(x, j) && Aligned(y, k) && j <= k
    requires x < y + Pow2(k) && y < x + Pow2(j)
    ensures y <= x && x + Pow2(j) <= y + Pow2(k)
  {
    AlignedPlus(y, k);
    AlignedDown(y, j, k);
    AlignedDown(y + Pow2(k), j, k);
    if x < y {
      NextMultiple(x, y, j);
    }
    NextMultiple(x, y + Pow2(k), j);
  }

  // ----- trailing zeros, bit length

  lemma {:induction false} TrailingZerosAlign(n: nat, k: nat)
    requires n > 0
    ensures Aligned(n, k) <==> k <= TrailingZeros(n)
    decreases k
  {
    if k > 0 {
      AlignedHalve(n, k);
      if n % 2 == 0 {
        TrailingZerosAlign(n / 2, k - 1);
      }
    }
  }

  lemma {:induction false} TrailingZerosPow2(k: nat)
    ensures TrailingZeros(Pow2(k)) == k
  {
    if k > 0 {
      assert Pow2(k) / 2 == Pow2(k - 1);
      TrailingZerosPow2(k - 1);
    }
  }

  lemma {:induction false} BitLengthBounds(n: nat)
    requires n > 0
    ensures BitLength(n) > 0 && Pow2(BitLength(n) - 1) <= n < Pow2(BitLength(n))
  {
    if n > 1 {
      BitLengthBounds(n / 2);
    }
  }

  // ----- masks

  lemma WrappedProduct(w: nat, p: nat)
    requires 0 < p <= w
    ensures ((w - 1) * p) % w == w - p
  {
    assert (w - 1) * p == w * p - p == (p - 1) * w + (w - p);
    DivModUnique((w - 1) * p, w, p - 1, w - p);
  }

  lemma {:induction false} OnesShiftedLeftValue(width: nat, s: nat)
    requires s <= width
    ensures OnesShiftedLeft(width, s) == Pow2(width) - Pow2(s)
    ensures Pow2(s) <= Pow2(width)
  {
    if s < width {
      Pow2Monotone(s, width);
    }
    WrappedProduct(Pow2(width), Pow2(s));
  }

  /** Masking with `!0 << s` on `width` bits drops the low `s` bits and everything above the word. */
  lemma {:induction false} AndMask(x: nat, width: nat, s: nat)
    requires s <= width && Pow2(s) <= Pow2(width)
    ensures And(x, Pow2(width) - Pow2(s)) == x % Pow2(width) - x % Pow2(s)
    decreases width
  {
    if s == 0 {
      AndOnes(x, width);
    } else {
      ModHalve(x, Pow2(width - 1));
      ModHalve(x, Pow2(s - 1));
      AndMask(x / 2, width - 1, s - 1);
      AndEvenMask(x, Pow2(width - 1) - Pow2(s - 1));
    }
  }

  lemma AndEvenMask(x: nat, m: nat)
    ensures And(x, 2 * m) == 2 * And(x / 2, m)
  {
    assert (2 * m) % 2 == 0 && (2 * m) / 2 == m;
  }

  lemma {:induction false} AndOnes(x: nat, width: nat)
    ensures And(x, Pow2(width) - 1) == x % Pow2(width)
    decreases width
  {
    if width > 0 {
      ModHalve(x, Pow2(width - 1));
      AndOnes(x / 2, width - 1);
      assert (Pow2(width) - 1) % 2 == 1 && (Pow2(width) - 1) / 2 == Pow2(width - 1) - 1;
    }
  }
}
