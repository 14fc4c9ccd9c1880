/** 64-bit words: the bit operations `&` and `~`, powers of two, and the
    rounding macro `__ALIGN` of heap_pool.c with what it computes. */
module Words {

  const WORD_BITS: nat := 64
  const WORD: nat := 0x1_0000_0000_0000_0000

  function Pow2(k: nat): (p: nat)
    ensures p > 0
  {
    if k == 0 then 1 else 2 * Pow2(k - 1)
  }

  ghost predicate IsPow2(v: nat)
    ensures IsPow2(v) ==> v > 0
  {
    exists k: nat :: v == Pow2(k)
  }

  /** Bitwise conjunction, least significant bit first. */
  function And(x: nat, y: nat): nat
    decreases x
  {
    if x == 0 then 0
    else (if x % 2 == 1 && y % 2 == 1 then 1 else 0) + 2 * And(x / 2, y / 2)
  }

  /** Bitwise complement of the `width` low bits of `x`. */
  function Not(x: nat, width: nat): nat
    decreases x, width
  {
    if width == 0 then 0 else (1 - x % 2) + 2 * Not(x / 2, width - 1)
  }

  /** The macro `__ALIGN(x, y)`: `(x + y - 1) & ~(y - 1)` on `size_t`. */
  function AlignMask(x: nat, y: nat): nat
    requires y > 0
  {
    And((x + y - 1) % WORD, Not(y - 1, WORD_BITS))
  }

  /** The macro `is_power_of_two(val)`, with the wrap-around of `val - 1` at 0. */
  predicate IsPow2Macro(v: nat) {
    v == 1 || And(v, if v == 0 then WORD - 1 else v - 1) == 0
  }

  /** The least multiple of `y` that is at least `x`. */
  ghost predicate IsLeastMultiple(r: nat, x: nat, y: nat)
    requires y > 0
  {
    && x <= r
    && r % y == 0
    && forall m: nat :: x <= m && m % y == 0 ==> r <= m
  }

  lemma Pow2Of8()
    ensures Pow2(8) == 256
  {
  }

  lemma {:induction false} Pow2Add(a: nat, b: nat)
    ensures Pow2(a + b) == Pow2(a) * Pow2(b)
  {
    if a > 0 {
      Pow2Add(a - 1, b);
    }
  }

  lemma WordIsPow2()
    ensures Pow2(WORD_BITS) == WORD
  {
    hide Pow2;
    Pow2Of8();
    Pow2Add(8, 8);
    Pow2Add(16, 16);
    Pow2Add(32, 32);
  }

  lemma {:induction false} Pow2Monotone(a: nat, b: nat)
    requires a < b
    ensures 2 * Pow2(a) <= Pow2(b)
  {
    if a + 1 < b {
      Pow2Monotone(a, b - 1);
    }
  }

  lemma DivModSplit(x: int, y: int)
    requires y > 0
    ensures x == (x / y) * y + x % y && 0 <= x % y < y
  {
  }

  lemma Distribute(a: int, b: int, y: int)
    ensures (a - b) * y == a * y - b * y
  {
  }

  lemma SmallMultipleIsZero(t: int, y: int)
    requires -y < t * y < y
    ensures t == 0
  {
  }

  lemma DivModUnique(x: int, y: int, q: int, r: int)
    requires y > 0 && x == q * y + r && 0 <= r < y
    ensures x / y == q && x % y == r
  {
    DivModSplit(x, y);
    var d, e := x / y, x % y;
    assert (d - q) * y == r - e by {
      Distribute(d, q, y);
    }
    SmallMultipleIsZero(d - q, y);
  }

  lemma MultipleMod(q: nat, y: nat)
    requires y > 0
    ensures (q * y) % y == 0
  {
    DivModUnique(q * y, y, q, 0);
  }

  /** The smaller of two powers of two divides the larger. */
  lemma Pow2Divides(x: nat, y: nat)
    requires IsPow2(x) && IsPow2(y) && x <= y
    ensures y % x == 0
  {
    var a: nat :| x == Pow2(a);
    var b: nat :| y == Pow2(b);
    if b < a {
      Pow2Monotone(b, a);
    }
    Pow2Add(b - a, a);
    MultipleMod(Pow2(b - a), x);
  }

  lemma {:induction false} AndSelf(x: nat)
    ensures And(x, x) == x
  {
    if x > 0 {
      AndSelf(x / 2);
    }
  }

  lemma {:induction false} AndAllOnes(x: nat, width: nat)
    requires x < Pow2(width)
    ensures And(x, Not(0, width)) == x
    decreases width
  {
    if width > 0 && x > 0 {
      AndAllOnes(x / 2, width - 1);
    }
  }

  lemma ModDouble(x: nat, p: nat)
    requires p > 0
    ensures x % (2 * p) == 2 * ((x / 2) % p) + x % 2
  {
    var h := x / 2;
    assert h == p * (h / p) + h % p;
    DivModUnique(x, 2 * p, h / p, 2 * (h % p) + x % 2);
  }

  lemma NotOdd(p: nat, width: nat)
    requires p > 0 && width > 0
    ensures Not(2 * p - 1, width) == 2 * Not(p - 1, width - 1)
  {
    assert (2 * p - 1) % 2 == 1 && (2 * p - 1) / 2 == p - 1;
  }

  lemma EvenHalf(n: nat)
    ensures (2 * n) % 2 == 0 && (2 * n) / 2 == n
  {
  }

  lemma AndEven(x: nat, n: nat)
    ensures And(x, 2 * n) == 2 * And(x / 2, n)
  {
    EvenHalf(n);
  }

  /** The number formed by the `k` low bits of `x`. */
  function LowBits(x: nat, k: nat): nat
    decreases x, k
  {
    if k == 0 then 0 else x % 2 + 2 * LowBits(x / 2, k - 1)
  }

  lemma {:induction false} LowBitsIsMod(x: nat, k: nat)
    ensures LowBits(x, k) == x % Pow2(k)
    decreases k
  {
    if k > 0 {
      LowBitsIsMod(x / 2, k - 1);
      ModDouble(x, Pow2(k - 1));
    }
  }

  /** Masking with the complement of `2^k - 1` clears exactly the low `k` bits. */
  lemma {:induction false} MaskClearsLowBits(x: nat, k: nat, width: nat)
    requires x < Pow2(width) && k <= width
    ensures And(x, Not(Pow2(k) - 1, width)) == x - LowBits(x, k)
    decreases width
  {
    hide And, Not;
    if k == 0 {
      AndAllOnes(x, width);
    } else {
      var p := Pow2(k - 1);
      calc {
        And(x, Not(2 * p - 1, width));
        { NotOdd(p, width); }
        And(x, 2 * Not(p - 1, width - 1));
        { AndEven(x, Not(p - 1, width - 1)); }
        2 * And(x / 2, Not(p - 1, width - 1));
        { MaskClearsLowBits(x / 2, k - 1, width - 1); }
        2 * (x / 2 - LowBits(x / 2, k - 1));
      }
    }
  }

  /** Two multiples of `y` less than `y` apart in one direction are ordered. */
  lemma MultiplesApart(r: nat, m: nat, y: nat)
    requires y > 0 && r % y == 0 && m % y == 0 && r < m + y
    ensures r <= m
  {
    DivModSplit(r, y);
    DivModSplit(m, y);
    if r > m {
      Distribute(r / y, m / y, y);
      SmallMultipleIsZero(r / y - m / y, y);
    }
  }

  /** Rounding down to a multiple, shifted by `y - 1`, gives the least multiple from above. */
  lemma RoundDownIsLeast(x: nat, y: nat)
    requires y > 0
    ensures var z := x + y - 1; 0 <= z - z % y < x + y && IsLeastMultiple(z - z % y, x, y)
  {
    var z := x + y - 1;
    var r := z - z % y;
    DivModSplit(z, y);
    MultipleMod(z / y, y);
    forall m: nat | x <= m && m % y == 0
      ensures r <= m
    {
      MultiplesApart(r, m, y);
    }
  }

  lemma MaskClearsPow2(z: nat, y: nat, width: nat)
    requires IsPow2(y) && y - 1 <= z < Pow2(width)
    ensures And(z, Not(y - 1, width)) == z - z % y
  {
    var k: nat :| y == Pow2(k);
    if k > width {
      Pow2Monotone(width, k);
    }
    MaskClearsLowBits(z, k, width);
    LowBitsIsMod(z, k);
  }

  lemma AlignMaskValue(x: nat, y: nat)
    requires IsPow2(y) && x + y - 1 < WORD
    ensures AlignMask(x, y) == x + y - 1 - (x + y - 1) % y
  {
    hide Pow2, And, Not;
    WordIsPow2();
    MaskClearsPow2(x + y - 1, y, WORD_BITS);
  }

  /** `__ALIGN` is the least multiple from above, for every power of two, short of overflow. */
  lemma AlignMaskIsLeastMultiple(x: nat, y: nat)
    requires IsPow2(y) && x + y - 1 < WORD
    ensures IsLeastMultiple(AlignMask(x, y), x, y)
    ensures AlignMask(x, y) < x + y
  {
    AlignMaskValue(x, y);
    RoundDownIsLeast(x, y);
  }

  lemma {:induction false} AndPredecessor(v: nat)
    requires v > 0
    ensures And(v, v - 1) == 0 <==> IsPow2(v)
  {
    if v == 1 {
      assert Pow2(0) == 1;
    } else if v % 2 == 1 {
      assert (v - 1) / 2 == v / 2;
      AndSelf(v / 2);
      forall k: nat ensures v != Pow2(k) {
        if k > 0 {
          assert Pow2(k) % 2 == 0;
        }
      }
    } else {
      assert (v - 1) / 2 == v / 2 - 1;
      AndPredecessor(v / 2);
      if IsPow2(v / 2) {
        var k: nat :| v / 2 == Pow2(k);
        assert v == Pow2(k + 1);
      }
      if IsPow2(v) {
        var k: nat :| v == Pow2(k);
        assert k > 0 && v / 2 == Pow2(k - 1);
      }
    }
  }

  /** The macro accepts exactly the powers of two among the nonzero words (and 0 besides). */
  lemma IsPow2MacroExact(v: nat)
    ensures IsPow2Macro(v) <==> v == 0 || IsPow2(v)
  {
    if v > 0 {
      AndPredecessor(v);
      assert Pow2(0) == 1;
    }
  }
}
