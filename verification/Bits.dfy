/** Bit masks on machine words, written on natural numbers. */
module Bits {
  import opened Bytes

  function BitAnd(a: nat, b: nat): nat {
    if a == 0 || b == 0 then 0
    else 2 * BitAnd(a / 2, b / 2) + (if a % 2 == 1 && b % 2 == 1 then 1 else 0)
  }

  function Pow2(k: nat): (r: nat)
    ensures r >= 1
  {
    if k == 0 then 1 else 2 * Pow2(k - 1)
  }

  predicate IsPow2(a: nat) {
    a == 1 || (a > 0 && a % 2 == 0 && IsPow2(a / 2))
  }

  lemma {:induction false} BytesOfBits(bytes: nat) returns (width: nat)
    ensures Pow2(width) == Pow256(bytes)
  {
    if bytes == 0 {
      width := 0;
    } else {
      var w := BytesOfBits(bytes - 1);
      width := w + 8;
      assert Pow2(w + 2) == 4 * Pow2(w);
      assert Pow2(w + 4) == 4 * Pow2(w + 2);
      assert Pow2(w + 6) == 4 * Pow2(w + 4);
    }
  }

  /** The number of bits in a word. */
  lemma WordIsPow2() returns (width: nat)
    ensures Pow2(width) == WORD
  {
    width := BytesOfBits(8);
    WordWidth();
  }

  /** Rounding up the way the source does it: `(x + a - 1) & ~(a - 1)` on 64-bit words. */
  function MaskUp(x: nat, a: nat): nat
    requires 1 <= a <= WORD
  {
    BitAnd(Wrap(x + a - 1), WORD - a)
  }

  /** The least multiple of `a` that is not below `x`. */
  ghost predicate IsRoundUp(x: nat, a: nat, r: nat)
    requires a >= 1
  {
    r % a == 0 && x <= r < x + a
  }

  // ----- Single bits -----

  /** Whether bit `i` of a number is set. */
  predicate Bit(n: nat, i: nat) {
    if i == 0 then n % 2 == 1 else Bit(n / 2, i - 1)
  }

  /** The conjunction has exactly the bits that both numbers have. */
  lemma {:induction false} BitAndBits(a: nat, b: nat, i: nat)
    ensures Bit(BitAnd(a, b), i) <==> Bit(a, i) && Bit(b, i)
    decreases i
  {
    var r := BitAnd(a, b);
    if a == 0 || b == 0 {
      NoBits(i);
    } else {
      assert r / 2 == BitAnd(a / 2, b / 2);
      if i > 0 {
        BitAndBits(a / 2, b / 2, i - 1);
      }
    }
  }

  lemma {:induction false} NoBits(i: nat)
    ensures !Bit(0, i)
  {
    if i > 0 {
      NoBits(i - 1);
    }
  }

  // ----- Powers of two -----

  lemma {:induction false} AllOnes(x: nat, width: nat)
    requires x < Pow2(width)
    ensures BitAnd(x, Pow2(width) - 1) == x
  {
    if width > 0 && x > 0 {
      AllOnes(x / 2, width - 1);
    }
  }

  lemma HalveMod(x: nat, m: nat)
    requires m >= 1
    ensures x % (2 * m) == 2 * (x / 2 % m) + x % 2
  {
    var q, r := x / 2 / m, x / 2 % m;
    assert x == (2 * m) * q + (2 * r + x % 2);
    QuotientUnique(x, 2 * m, q, 2 * r + x % 2);
  }

  lemma MulAtLeast(m: int, d: int)
    requires m >= 0
    ensures d >= 1 ==> m * d >= m
    ensures d <= -1 ==> m * d <= -m
  {
    if d >= 1 {
      assert m * d == m * (d - 1) + m && m * (d - 1) >= 0;
    } else if d <= -1 {
      assert m * d == m * (d + 1) - m && m * (-(d + 1)) >= 0;
    }
  }

  lemma SameQuotient(m: nat, q: nat, r: nat, q': nat, r': nat)
    requires r < m && r' < m && m * q + r == m * q' + r'
    ensures q == q' && r == r'
  {
    assert m * (q - q') == m * q - m * q';
    MulAtLeast(m, q - q');
  }

  lemma QuotientUnique(x: nat, m: nat, q: nat, r: nat)
    requires r < m && x == m * q + r
    ensures x % m == r && x / m == q
  {
    SameQuotient(m, q, r, x / m, x % m);
  }

  lemma EvenMask(x: nat, half: nat)
    ensures BitAnd(x, 2 * half) == 2 * BitAnd(x / 2, half)
  {
    assert 2 * half / 2 == half && 2 * half % 2 == 0;
  }

  /** Masking with a power of two clears exactly the low bits. */
  lemma {:induction false} MaskDown(x: nat, k: nat, width: nat)
    requires k <= width && x < Pow2(width)
    ensures Pow2(k) <= Pow2(width)
    ensures BitAnd(x, Pow2(width) - Pow2(k)) == x - x % Pow2(k)
  {
    if k == 0 {
      AllOnes(x, width);
    } else {
      MaskDown(x / 2, k - 1, width - 1);
      HalveMod(x, Pow2(k - 1));
      EvenMask(x, Pow2(width - 1) - Pow2(k - 1));
    }
  }

  lemma {:induction false} Exponent(a: nat, width: nat) returns (k: nat)
    requires IsPow2(a) && a <= Pow2(width)
    ensures a == Pow2(k) && k <= width
  {
    if a == 1 {
      k := 0;
    } else {
      assert width > 0;
      var j := Exponent(a / 2, width - 1);
      k := j + 1;
    }
  }

  // ----- Everything else -----

  lemma {:induction false} ComplementDisjoint(x: nat, width: nat)
    requires x < Pow2(width)
    ensures BitAnd(x, Pow2(width) - 1 - x) == 0
  {
    if width > 0 {
      var y := Pow2(width) - 1 - x;
      assert y / 2 == Pow2(width - 1) - 1 - x / 2 && y % 2 == 1 - x % 2;
      ComplementDisjoint(x / 2, width - 1);
    }
  }

  /** `a & -a` is `a` exactly for powers of two. */
  lemma {:induction false} LowestBit(a: nat, width: nat)
    requires 0 < a < Pow2(width)
    ensures 0 < BitAnd(a, Pow2(width) - a) <= a
    ensures BitAnd(a, Pow2(width) - a) == a <==> IsPow2(a)
  {
    var b := Pow2(width) - a;
    if a % 2 == 0 {
      assert b % 2 == 0 && b / 2 == Pow2(width - 1) - a / 2;
      LowestBit(a / 2, width - 1);
    } else {
      assert b / 2 == Pow2(width - 1) - 1 - a / 2;
      ComplementDisjoint(a / 2, width - 1);
      assert BitAnd(a, b) == 1;
    }
  }

  lemma RoundUpUnique(x: nat, a: nat, r: nat, s: nat)
    requires a >= 1 && IsRoundUp(x, a, r) && IsRoundUp(x, a, s)
    ensures r == s
  {
    if r < s {
      SameQuotient(a, r / a, s - r, s / a, 0);
    } else if s < r {
      SameQuotient(a, s / a, r - s, r / a, 0);
    }
  }

  lemma MaskRoundsUp(x: nat, a: nat)
    requires IsPow2(a) && a < WORD && x + a - 1 < WORD
    ensures IsRoundUp(x, a, MaskUp(x, a))
  {
    MaskClears(x, a);
    CutDown(x, a);
  }

  lemma MaskClears(x: nat, a: nat)
    requires IsPow2(a) && a < WORD && x + a - 1 < WORD
    ensures var y := x + a - 1; MaskUp(x, a) == y - y % a
  {
    var y := x + a - 1;
    var width := WordIsPow2();
    var k := Exponent(a, width);
    MaskDown(y, k, width);
    assert Wrap(y) == y;
  }

  lemma CutDown(x: nat, a: nat)
    requires a >= 1
    ensures var y := x + a - 1;
            IsRoundUp(x, a, y - y % a)
  {
    var y := x + a - 1;
    QuotientUnique(y - y % a, a, y / a, 0);
  }

  /** The mask form rounds up to multiples of `a` for every word if and only if `a` is
      a power of two. */
  lemma MaskIsRoundUp(a: nat)
    requires 1 <= a < WORD
    ensures (forall x: nat | x + a - 1 < WORD :: IsRoundUp(x, a, MaskUp(x, a))) <==> IsPow2(a)
  {
    if IsPow2(a) {
      forall x: nat | x + a - 1 < WORD ensures IsRoundUp(x, a, MaskUp(x, a)) {
        MaskRoundsUp(x, a);
      }
    } else {
      NotRoundedAtOne(a);
      var x := 1;
      assert !IsRoundUp(x, a, MaskUp(x, a));
    }
  }

  /** For any other `a` it already fails at 1. */
  lemma NotRoundedAtOne(a: nat)
    requires 1 <= a < WORD && !IsPow2(a)
    ensures 0 < MaskUp(1, a) < a && MaskUp(1, a) % a != 0
  {
    var width := WordIsPow2();
    LowestBit(a, width);
    QuotientUnique(MaskUp(1, a), a, 0, MaskUp(1, a));
  }
}
