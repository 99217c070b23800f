/**
  Natural-number arithmetic for the fixed-width unsigned operations of the codecs:
  powers of two, shifts, masks, bitwise OR and XOR, and two's-complement conversion.
 */
module Arith {

  function Pow2(n: nat): (r: nat)
    ensures r > 0
  {
    if n == 0 then 1 else 2 * Pow2(n - 1)
  }

  /** `x << s`, before any register cuts it. */
  function Shl(x: int, s: nat): (r: int)
    ensures x >= 0 ==> r >= 0
    decreases s, x
  {
    if s == 0 then x else 2 * Shl(x, s - 1)
  }

  /** `x >> s`, arithmetic when `x` is negative. */
  function Shr(x: int, s: nat): (r: int)
    ensures x >= 0 ==> r >= 0
    decreases s, x
  {
    if s == 0 then x else Shr(x / 2, s - 1)
  }

  /** `x & ((1 << w) - 1)`: the `w` low bits, in two's complement when `x` is negative.
      It is also what conversion to an unsigned register of `w` bits does. */
  function Mask(x: int, w: nat): nat
    decreases w, x
  {
    if w == 0 then 0 else x % 2 + 2 * Mask(x / 2, w - 1)
  }

  /** The `w` bits of `x` that start at bit `off`. */
  function Bits(x: nat, off: nat, w: nat): nat {
    Mask(Shr(x, off), w)
  }

  /** Bitwise OR. */
  function Or(x: nat, y: nat): nat
    decreases x + y
  {
    if x == 0 && y == 0 then 0
    else (if x % 2 == 1 || y % 2 == 1 then 1 else 0) + 2 * Or(x / 2, y / 2)
  }

  /** Bitwise XOR. */
  function Xor(x: nat, y: nat): nat
    decreases x + y
  {
    if x == 0 && y == 0 then 0
    else (if x % 2 != y % 2 then 1 else 0) + 2 * Xor(x / 2, y / 2)
  }

  function Min(a: int, b: int): int { if a < b then a else b }

  function CeilDiv8(n: nat): nat { (n + 7) / 8 }

  // ---------------------------------------------------------------- powers of two

  lemma {:induction false} Pow2Add(a: nat, b: nat)
    ensures Pow2(a + b) == Pow2(a) * Pow2(b)
  {
    if a > 0 {
      Pow2Add(a - 1, b);
    }
  }

  lemma {:induction false} Pow2Mono(a: nat, b: nat)
    requires a <= b
    ensures Pow2(a) <= Pow2(b)
  {
    if a < b {
      Pow2Mono(a, b - 1);
    }
  }

  const TWO_32: nat := 0x1_0000_0000
  const TWO_64: nat := 0x1_0000_0000_0000_0000

  /** Arithmetic of `uint32_t`. */
  function Wrap32(x: nat): (r: nat)
    ensures r < TWO_32
  {
    x % TWO_32
  }

  lemma Pow2Values()
    ensures Pow2(7) == 128 && Pow2(8) == 256 && Pow2(15) == 0x8000 && Pow2(16) == 0x1_0000
  {
    assert Pow2(8) == 256;
    Pow2Add(8, 7);
    Pow2Add(8, 8);
  }

  /** The register widths, for a width that is not a literal. */
  lemma Pow2Width(n: nat)
    ensures n == 8 ==> Pow2(n) == 256
    ensures n == 16 ==> Pow2(n) == 0x1_0000
    ensures n == 32 ==> Pow2(n) == TWO_32
    ensures n == 64 ==> Pow2(n) == TWO_64
  {
    Pow2Values();
    Pow2Add(16, 16);
    if n == 64 {
      Pow2Add(32, 32);
    }
  }

  // ---------------------------------------------------------------- shifts and masks

  lemma {:induction false} ShlMul(x: int, s: nat)
    ensures Shl(x, s) == x * Pow2(s)
  {
    if s > 0 {
      ShlMul(x, s - 1);
      MulAssoc(2, x, Pow2(s - 1));
    }
  }

  lemma {:induction false} ShrIsQuotient(x: nat, s: nat)
    ensures Shr(x, s) == x / Pow2(s)
    decreases s
  {
    if s > 0 {
      ShrIsQuotient(x / 2, s - 1);
      HalvedQuotient(x, Pow2(s - 1));
    }
  }

  lemma HalvedQuotient(x: nat, m: nat)
    requires m > 0
    ensures x / 2 / m == x / (2 * m)
  {
    var q, r := x / 2 / m, x / 2 % m;
    MulAssoc(q, 2, m);
    DivModUnique(x, 2 * m, q, 2 * r + x % 2);
  }

  lemma {:induction false} ShlAdd(x: int, y: int, s: nat)
    ensures Shl(x + y, s) == Shl(x, s) + Shl(y, s)
  {
    if s > 0 {
      ShlAdd(x, y, s - 1);
    }
  }

  lemma {:induction false} ShlShl(x: int, a: nat, b: nat)
    ensures Shl(Shl(x, a), b) == Shl(x, a + b)
  {
    if b > 0 {
      ShlShl(x, a, b - 1);
    }
  }

  lemma {:induction false} ShlBound(x: nat, w: nat, s: nat)
    requires x < Pow2(w)
    ensures Shl(x, s) <= Pow2(w + s) - Pow2(s)
  {
    if s > 0 {
      ShlBound(x, w, s - 1);
    }
  }

  lemma {:induction false} ShrShr(x: int, a: nat, b: nat)
    ensures Shr(Shr(x, a), b) == Shr(x, a + b)
    decreases a
  {
    if a > 0 {
      ShrShr(x / 2, a - 1, b);
    }
  }

  lemma {:induction false} ShrBound(x: nat, a: nat, b: nat)
    requires x < Pow2(a + b)
    ensures Shr(x, a) < Pow2(b)
  {
    if a > 0 {
      ShrBound(x / 2, a - 1, b);
    }
  }

  lemma {:induction false} MaskBound(x: int, w: nat)
    ensures Mask(x, w) < Pow2(w)
    decreases w
  {
    if w > 0 {
      MaskBound(x / 2, w - 1);
    }
  }

  lemma {:induction false} MaskSmall(x: nat, w: nat)
    requires x < Pow2(w)
    ensures Mask(x, w) == x
  {
    if w > 0 {
      MaskSmall(x / 2, w - 1);
    }
  }

  lemma {:induction false} MaskMask(x: int, a: nat, b: nat)
    ensures Mask(Mask(x, b), a) == Mask(x, if a <= b then a else b)
    decreases a
  {
    if a == 0 {
    } else if b == 0 {
      MaskSmall(0, a);
    } else {
      var y := Mask(x, b);
      assert y / 2 == Mask(x / 2, b - 1) && y % 2 == x % 2;
      MaskMask(x / 2, a - 1, b - 1);
    }
  }

  lemma {:induction false} ShrOfMask(x: int, a: nat, w: nat)
    ensures Shr(Mask(x, a + w), a) == Mask(Shr(x, a), w)
    decreases a
  {
    if a > 0 {
      ShrOfMask(x / 2, a - 1, w);
    }
  }

  /** The low bits and the rest make up the number. */
  lemma {:induction false} MaskJoin(x: int, a: nat, b: nat)
    ensures Mask(x, a + b) == Mask(x, a) + Shl(Mask(Shr(x, a), b), a)
    decreases a
  {
    if a > 0 {
      MaskJoin(x / 2, a - 1, b);
    }
  }

  lemma {:induction false} SplitAt(x: int, a: nat)
    ensures x == Mask(x, a) + Shl(Shr(x, a), a)
    decreases a
  {
    if a > 0 {
      SplitAt(x / 2, a - 1);
    }
  }

  lemma {:induction false} ShrOfSum(n: int, x: int, k: nat, s: nat)
    requires s <= k
    ensures Shr(n + Shl(x, k), s) == Shr(n, s) + Shl(x, k - s)
    decreases s
  {
    if s > 0 {
      ShrOfSum(n / 2, x, k - 1, s - 1);
    }
  }

  lemma {:induction false} MaskOfSum(n: int, x: int, k: nat, w: nat)
    requires w <= k
    ensures Mask(n + Shl(x, k), w) == Mask(n, w)
    decreases w
  {
    if w > 0 {
      MaskOfSum(n / 2, x, k - 1, w - 1);
    }
  }

  /** A number below `2^k` and what is put above it come apart again. */
  lemma Unjoin(n: nat, x: int, k: nat, both: int)
    requires n < Pow2(k) && both == n + Shl(x, k)
    ensures Shr(both, k) == x && Mask(both, k) == n
  {
    ShrOfSum(n, x, k, k);
    ShrBound(n, k, 0);
    MaskOfSum(n, x, k, k);
    MaskSmall(n, k);
  }

  lemma {:induction false} MaskOfShl(x: int, s: nat, w: nat)
    requires s <= w
    ensures Mask(Shl(x, s), w) == Shl(Mask(x, w - s), s)
  {
    if s > 0 {
      assert Shl(x, s) / 2 == Shl(x, s - 1);
      MaskOfShl(x, s - 1, w - 1);
    }
  }

  lemma {:induction false} MaskOfShlZero(x: int, s: nat, w: nat)
    requires w <= s
    ensures Mask(Shl(x, s), w) == 0
  {
    if w > 0 {
      MaskOfShlZero(x, s - 1, w - 1);
    }
  }

  lemma {:induction false} ShrOfShl(x: int, s: nat, w: nat)
    requires s <= w
    ensures Shr(Shl(x, s), w) == Shr(x, w - s)
  {
    if s > 0 {
      assert Shl(x, s) / 2 == Shl(x, s - 1);
      ShrOfShl(x, s - 1, w - 1);
    }
  }

  /** Registers wrap: reducing an operand first does not change the reduced result. */
  lemma MaskSum(x: int, y: int, w: nat)
    ensures Mask(Mask(x, w) + y, w) == Mask(x + y, w)
    ensures Mask(y - Mask(x, w), w) == Mask(y - x, w)
  {
    var m, q := Mask(x, w), Shr(x, w);
    SplitAt(x, w);
    ShlNeg(q, w);
    MaskPeriod(x + y, m + y, -q, w);
    MaskPeriod(y - x, y - m, q, w);
  }

  /** The wrapping difference of two registers is the register of the difference. */
  lemma MaskDiff(x: int, y: int, w: nat)
    ensures Mask(Mask(x, w) - Mask(y, w), w) == Mask(x - y, w)
  {
    MaskSum(y, Mask(x, w), w);
    MaskSum(x, -y, w);
  }

  /** The wrapping sum of two registers is the register of the sum. */
  lemma ResidueSum(x: int, y: int, w: nat)
    ensures Mask(Mask(y, w) + Mask(x, w), w) == Mask(x + y, w)
  {
    var m := Mask(y, w);
    MaskSum(x, m, w);
    MaskSum(y, x, w);
  }

  lemma MaskPeriod(x: int, y: int, k: int, w: nat)
    requires y == x + Shl(k, w)
    ensures Mask(y, w) == Mask(x, w)
  {
    MaskOfSum(x, k, w, w);
  }

  lemma {:induction false} ShlNeg(x: int, s: nat)
    ensures Shl(-x, s) == -Shl(x, s)
  {
    if s > 0 {
      ShlNeg(x, s - 1);
    }
  }

  // ---------------------------------------------------------------- two's complement

  predicate IsSigned(v: int, w: nat)
    requires w > 0
  {
    var half: int := Pow2(w - 1);
    -half <= v < half
  }

  /** Reinterpretation of the `w` low bits of an integer as a two's-complement register. */
  function ToSigned(x: int, w: nat): (r: int)
    requires w > 0
  {
    var u := Mask(x, w);
    if u < Pow2(w - 1) then u else u - Pow2(w)
  }

  lemma ToSignedRange(x: int, w: nat)
    requires w > 0
    ensures IsSigned(ToSigned(x, w), w)
  {
    MaskBound(x, w);
  }

  /** The `w` low bits of a negative number in range are its two's complement. */
  lemma MaskNegative(v: int, w: nat)
    requires 0 <= v + Pow2(w) < Pow2(w)
    ensures Mask(v, w) == v + Pow2(w)
  {
    ShlMul(1, w);
    MaskOfSum(v, 1, w, w);
    MaskSmall(v + Pow2(w), w);
  }

  lemma SignedRoundTrip(v: int, w: nat)
    requires w > 0 && IsSigned(v, w)
    ensures ToSigned(v, w) == v
  {
    if v >= 0 {
      MaskSmall(v, w);
    } else {
      MaskNegative(v, w);
    }
  }

  lemma SameSigned(x: int, y: int, w: nat)
    requires w > 0 && Mask(x, w) == Mask(y, w)
    ensures ToSigned(x, w) == ToSigned(y, w)
  {
  }

  /** Only the low bits matter to a two's-complement register, and it keeps them. */
  lemma SignedCongruent(x: int, w: nat)
    requires w > 0
    ensures Mask(ToSigned(x, w), w) == Mask(x, w)
    ensures ToSigned(Mask(x, w), w) == ToSigned(x, w)
  {
    MaskMask(x, w, w);
    MaskBound(x, w);
    var u := Mask(x, w);
    if u >= Pow2(w - 1) {
      MaskNegative(u - Pow2(w), w);
    }
  }

  // ---------------------------------------------------------------- bit fields

  lemma BitsBound(x: nat, off: nat, w: nat)
    ensures Bits(x, off, w) < Pow2(w)
  {
    MaskBound(Shr(x, off), w);
  }

  /** A field of a field is a field. */
  lemma BitsOfBits(x: nat, o1: nat, w1: nat, o2: nat, w2: nat)
    requires o2 + w2 <= w1
    ensures Bits(Bits(x, o1, w1), o2, w2) == Bits(x, o1 + o2, w2)
  {
    ShrOfMask(Shr(x, o1), o2, w1 - o2);
    ShrShr(x, o1, o2);
    MaskMask(Shr(x, o1 + o2), w2, w1 - o2);
  }

  /** Adjacent fields join. */
  lemma BitsJoin(x: nat, off: nat, a: nat, b: nat)
    ensures Bits(x, off, a + b) == Bits(x, off, a) + Shl(Bits(x, off + a, b), a)
  {
    MaskJoin(Shr(x, off), a, b);
    ShrShr(x, off, a);
  }

  /** What is added at or above a field does not change the field. */
  lemma BitsBelow(n: nat, x: nat, k: nat, off: nat, w: nat)
    requires off + w <= k
    ensures Bits(n + Shl(x, k), off, w) == Bits(n, off, w)
  {
    ShrOfSum(n, x, k, off);
    MaskOfSum(Shr(n, off), x, k - off, w);
  }

  /** A value placed just above a small number is read back whole. */
  lemma BitsTop(n: nat, x: nat, k: nat, w: nat)
    requires n < Pow2(k) && x < Pow2(w)
    ensures Bits(n + Shl(x, k), k, w) == x
    ensures n + Shl(x, k) < Pow2(k + w)
  {
    ShrOfSum(n, x, k, k);
    ShrBound(n, k, 0);
    MaskSmall(x, w);
    ShlBound(x, w, k);
  }

  lemma BitsZero(x: nat, off: nat, w: nat)
    requires x < Pow2(off)
    ensures Bits(x, off, w) == 0
  {
    ShrBound(x, off, 0);
    MaskSmall(0, w);
  }

  // ---------------------------------------------------------------- OR and XOR

  /** OR of a number with a multiple of a larger power of two is their sum. */
  lemma {:induction false} OrDisjoint(x: nat, y: nat, k: nat)
    requires x < Pow2(k)
    ensures Or(x, Shl(y, k)) == x + Shl(y, k)
  {
    if k > 0 {
      OrDisjoint(x / 2, y, k - 1);
    } else {
      OrZero(y);
    }
  }

  lemma {:induction false} OrZero(y: nat)
    ensures Or(0, y) == y
  {
    if y > 0 {
      OrZero(y / 2);
    }
  }

  lemma {:induction false} OrWithZero(x: nat)
    ensures Or(x, 0) == x
  {
    if x > 0 {
      OrWithZero(x / 2);
    }
  }

  lemma {:induction false} OrBound(x: nat, y: nat, w: nat)
    requires x < Pow2(w) && y < Pow2(w)
    ensures Or(x, y) < Pow2(w)
    decreases w
  {
    if w > 0 {
      OrBound(x / 2, y / 2, w - 1);
    }
  }

  lemma OrHalves(x: nat, y: nat)
    ensures Or(x, y) / 2 == Or(x / 2, y / 2)
    ensures Or(x, y) % 2 == if x % 2 == 1 || y % 2 == 1 then 1 else 0
  {
  }

  lemma BitOf(z: nat, j: nat)
    ensures Bits(z, j, 1) == if j == 0 then z % 2 else Bits(z / 2, j - 1, 1)
  {
    assert Mask(z, 1) == z % 2 + 2 * Mask(z / 2, 0);
  }

  /** ORing in one bit sets that bit and no other. */
  lemma {:induction false} OrBit(x: nat, k: nat, j: nat)
    ensures Bits(Or(x, Shl(1, k)), j, 1) == 1 <==> j == k || Bits(x, j, 1) == 1
  {
    var y := Shl(1, k);
    OrHalves(x, y);
    BitOf(Or(x, y), j);
    BitOf(x, j);
    if k == 0 {
      OrWithZero(x / 2);
    } else if j > 0 {
      OrBit(x / 2, k - 1, j - 1);
    }
  }

  lemma {:induction false} XorZero(x: nat)
    ensures Xor(x, 0) == x
  {
    if x > 0 {
      XorZero(x / 2);
    }
  }

  /** XOR with all ones is the complement. */
  lemma {:induction false} XorOnes(x: nat, w: nat)
    requires x < Pow2(w)
    ensures Xor(x, Pow2(w) - 1) == Pow2(w) - 1 - x
  {
    if w > 0 {
      XorOnes(x / 2, w - 1);
      var ones := Pow2(w) - 1;
      assert ones / 2 == Pow2(w - 1) - 1 && ones % 2 == 1;
    }
  }

  // ---------------------------------------------------------------- division

  lemma MulAtLeast(e: int, d: int)
    requires d > 0
    ensures e >= 1 ==> e * d >= d
    ensures e <= -1 ==> e * d <= -d
  {
  }

  lemma MulAssoc(a: int, b: int, c: int)
    ensures a * b * c == a * (b * c)
    ensures (a * b) * c == (a * c) * b
  {
  }

  lemma MulDist(a: int, b: int, c: int)
    ensures (a + b) * c == a * c + b * c
    ensures (a - b) * c == a * c - b * c
  {
  }

  lemma MulMono(a: int, b: int, c: int)
    requires a <= b && c >= 0
    ensures a * c <= b * c
  {
  }

  lemma DivModUnique(x: int, d: int, q: int, r: int)
    requires 0 <= r < d && x == q * d + r
    ensures x / d == q && x % d == r
  {
    MulDist(q, x / d, d);
    MulAtLeast(q - x / d, d);
  }

  lemma ModSmall(x: int, d: int)
    requires 0 <= x < d
    ensures x % d == x && x / d == 0
  {
  }
}
