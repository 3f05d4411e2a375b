/** Bit operations on unsigned machine words, as functions on naturals.

    The hash table only ever masks, ors and xors words whose value fits the
    machine type, so a word is its value and each operation works bit by bit
    from the low end. The lemmas say what the masks of the table mean in
    ordinary arithmetic when sizes are powers of two. */
module Bits {

  type Byte = b: nat | b < 256

  // a & b
  function And(a: nat, b: nat): nat {
    if a == 0 || b == 0 then 0 else (a % 2) * (b % 2) + 2 * And(a / 2, b / 2)
  }

  // a & ~b
  function AndNot(a: nat, b: nat): nat {
    if a == 0 then 0 else (if a % 2 == 1 && b % 2 == 0 then 1 else 0) + 2 * AndNot(a / 2, b / 2)
  }

  // a | b
  function Or(a: nat, b: nat): nat {
    if a == 0 then b else if b == 0 then a
    else (if a % 2 == 1 || b % 2 == 1 then 1 else 0) + 2 * Or(a / 2, b / 2)
  }

  // a ^ b
  function Xor(a: nat, b: nat): nat {
    if a == 0 then b else if b == 0 then a
    else (if a % 2 != b % 2 then 1 else 0) + 2 * Xor(a / 2, b / 2)
  }

  predicate IsPow2(n: nat) {
    n == 1 || (n > 1 && n % 2 == 0 && IsPow2(n / 2))
  }

  // --- Linear facts about division that the solver needs spelled out ---

  lemma DivModUnique(x: int, m: nat, q: int, r: int)
    requires m > 0 && x == q * m + r && 0 <= r < m
    ensures x / m == q && x % m == r
  {
    var d := x / m - q;
    assert x == m * (x / m) + x % m;
    assert d * m == r - x % m;
    MulAtLeast(d, m);
  }

  lemma MulAtLeast(d: int, m: int)
    requires m > 0
    ensures d > 0 ==> d * m >= m
    ensures d < 0 ==> d * m <= -m
  {}

  lemma DoubleMod(x: nat, m: nat)
    requires m > 0
    ensures x % (2 * m) == x % 2 + 2 * ((x / 2) % m)
    ensures x / (2 * m) == (x / 2) / m
  {
    var y := x / 2;
    assert y == m * (y / m) + y % m;
    assert x == (y / m) * (2 * m) + (x % 2 + 2 * (y % m));
    DivModUnique(x, 2 * m, y / m, x % 2 + 2 * (y % m));
  }

  // Two powers of two in order: the smaller divides the larger, with a power of two as quotient.
  lemma {:induction false} Pow2Divides(a: nat, b: nat)
    requires IsPow2(a) && IsPow2(b) && a <= b
    ensures b % a == 0 && IsPow2(b / a) && b == a * (b / a)
  {
    if a == 1 {
    } else {
      Pow2Divides(a / 2, b / 2);
      var q := (b / 2) / (a / 2);
      assert b == a * q by { assert b == 2 * (b / 2); assert a == 2 * (a / 2); }
      DivModUnique(b, a, q, 0);
    }
  }

  lemma {:induction false} Pow2Order(a: nat, b: nat)
    requires IsPow2(a) && IsPow2(b) && a < b
    ensures 2 * a <= b
  {
    if a <= 1 {
    } else {
      Pow2Order(a / 2, b / 2);
    }
  }

  // --- What the masks mean ---

  // The low mask of a power of two keeps the remainder.
  lemma {:induction false} AndLowMask(x: nat, m: nat)
    requires IsPow2(m)
    ensures And(x, m - 1) == x % m
  {
    if m == 1 {
    } else {
      AndLowMask(x / 2, m / 2);
      DoubleMod(x, m / 2);
      assert (m - 1) / 2 == m / 2 - 1 && (m - 1) % 2 == 1;
      if x == 0 { assert 0 % m == 0; }
    }
  }

  // Clearing the low mask rounds down to a multiple.
  lemma {:induction false} AndNotLowMask(x: nat, m: nat)
    requires IsPow2(m)
    ensures AndNot(x, m - 1) == m * (x / m)
  {
    if m == 1 {
      AndNotZero(x);
    } else {
      AndNotLowMask(x / 2, m / 2);
      DoubleMod(x, m / 2);
      assert (m - 1) / 2 == m / 2 - 1 && (m - 1) % 2 == 1;
      HalveProduct(m, m / 2, x / m, m * (x / m));
    }
  }

  lemma {:induction false} AndNotZero(x: nat)
    ensures AndNot(x, 0) == x
  {
    if x == 0 {
    } else {
      AndNotZero(x / 2);
    }
  }

  // Masking with `size - 1` less its low `g - 1` bits picks a multiple of g below size.
  lemma AndGroupMask(x: nat, g: nat, size: nat)
    requires IsPow2(g) && IsPow2(size) && g <= size
    ensures size / g > 0 && AndNot(size - 1, g - 1) == size - g
    ensures And(x, AndNot(size - 1, g - 1)) == g * ((x / g) % (size / g))
  {
    Pow2Divides(g, size);
    var n := size / g;
    GroupMaskValue(g, n, size);
    AndMultiple(x, g, n, size - g);
  }

  lemma GroupMaskValue(g: nat, n: nat, size: nat)
    requires IsPow2(g) && n > 0 && size == g * n
    ensures size >= g && AndNot(size - 1, g - 1) == size - g == g * (n - 1)
  {
    assert g > 0;
    hide IsPow2, AndNot;
    TimesPredecessor(g, n);
    AndNotLowMask(size - 1, g);
    DivModUnique(size - 1, g, n - 1, g - 1);
  }

  lemma TimesPredecessor(g: nat, n: nat)
    requires g > 0 && n > 0
    ensures g * n >= g && g * (n - 1) == (n - 1) * g == g * n - g
  {}

  // The mask w has its n - 1 shifted up past the low bits that g - 1 covers.
  lemma {:induction false} AndMultiple(x: nat, g: nat, n: nat, w: nat)
    requires IsPow2(g) && IsPow2(n) && w == g * (n - 1)
    ensures And(x, w) == g * ((x / g) % n)
  {
    if g == 1 {
      AndLowMask(x, n);
    } else {
      var h := g / 2;
      HalveProduct(g, h, n - 1, w);
      AndMultiple(x / 2, h, n, w / 2);
      DoubleMod(x, h);
      HalveProduct(g, h, (x / g) % n, g * ((x / g) % n));
      AndEvenMask(x, w);
    }
  }

  lemma HalveProduct(g: nat, h: nat, k: nat, w: nat)
    requires g == 2 * h && w == g * k
    ensures w % 2 == 0 && w / 2 == h * k && w == 2 * (h * k)
  {
    assert w == 2 * (h * k);
  }

  lemma AndEvenMask(x: nat, w: nat)
    requires w % 2 == 0
    ensures And(x, w) == 2 * And(x / 2, w / 2)
  {}

  // A set bit above every bit of `a`: or adds it, xor toggles it.
  lemma {:induction false} OrHighBit(a: nat, s: nat)
    requires IsPow2(s) && a < s
    ensures Or(a, s) == a + s
  {
    if s <= 1 || a == 0 {
    } else {
      OrHighBit(a / 2, s / 2);
    }
  }

  lemma {:induction false} XorHighBit(a: nat, s: nat)
    requires IsPow2(s) && a < 2 * s
    ensures Xor(a, s) == if a < s then a + s else a - s
  {
    if a == 0 {
    } else {
      if s == 1 { assert a == 1; } else {
        XorHighBit(a / 2, s / 2);
      }
    }
  }

  lemma {:induction false} XorSelf(a: nat)
    ensures Xor(a, a) == 0
  {
    if a == 0 {
    } else {
      XorSelf(a / 2);
    }
  }

  // Xor with a fixed word undoes itself.
  lemma {:induction false} XorInvolution(a: nat, b: nat)
    ensures Xor(a, Xor(a, b)) == b
    decreases a + b
  {
    if a == 0 {
    } else if b == 0 {
      XorSelf(a);
    } else {
      XorInvolution(a / 2, b / 2);
    }
  }
}
