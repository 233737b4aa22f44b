/** Integer models of the C++ bit operations the runtime uses. */
module Bits {

  function Pow2(n: nat): (r: nat)
    ensures r > 0
  {
    if n == 0 then 1 else 2 * Pow2(n - 1)
  }

  /** Bitwise `|` on unsigned integers of any width. */
  function BitOr(x: nat, y: nat): nat
  {
    if x == 0 then y
    else if y == 0 then x
    else 2 * BitOr(x / 2, y / 2) + (if x % 2 == 1 || y % 2 == 1 then 1 else 0)
  }

  lemma {:induction false} Pow2Add(a: nat, b: nat)
    ensures Pow2(a + b) == Pow2(a) * Pow2(b)
  {
    if b != 0 {
      Pow2Add(a, b - 1);
      assert Pow2(a + b) == 2 * Pow2(a + (b - 1));
    }
  }

  lemma {:induction false} Pow2Monotone(a: nat, b: nat)
    requires a <= b
    ensures Pow2(a) <= Pow2(b)
  {
    if a < b { Pow2Monotone(a, b - 1); }
  }

  /** Or-ing in bits above position `s` is addition. */
  lemma {:induction false} OrDisjoint(x: nat, y: nat, s: nat)
    requires x < Pow2(s)
    ensures BitOr(x, y * Pow2(s)) == x + y * Pow2(s)
  {
    if s != 0 && x != 0 && y != 0 {
      var z := y * Pow2(s);
      assert z == 2 * (y * Pow2(s - 1));
      OrDisjoint(x / 2, y, s - 1);
      assert z / 2 == y * Pow2(s - 1) && z % 2 == 0;
    } else if s == 0 {
      assert x == 0;
    } else if y == 0 {
      assert y * Pow2(s) == 0;
    }
  }

  /** The same with the shifted operand on the left, as in `(number << 3) | wire_type`. */
  lemma {:induction false} OrDisjointLeft(y: nat, s: nat, x: nat)
    requires x < Pow2(s)
    ensures BitOr(y * Pow2(s), x) == y * Pow2(s) + x
  {
    if s != 0 && x != 0 && y != 0 {
      var z := y * Pow2(s);
      assert z == 2 * (y * Pow2(s - 1));
      OrDisjointLeft(y, s - 1, x / 2);
      assert z / 2 == y * Pow2(s - 1) && z % 2 == 0;
    } else if s == 0 {
      assert x == 0;
    } else if y == 0 {
      assert y * Pow2(s) == 0;
    }
  }

  /** A left shift that drops the bits above the word: only the bits that fit are kept. */
  lemma {:induction false} ShiftTruncates(y: nat, s: nat, w: nat)
    requires s <= w
    ensures y * Pow2(s) % Pow2(w) == (y % Pow2(w - s)) * Pow2(s)
  {
    var hi, lo := Pow2(w - s), Pow2(s);
    Pow2Add(w - s, s);
    ShiftArith(y, hi, lo);
  }

  lemma ShiftArith(y: nat, hi: nat, lo: nat)
    requires hi > 0 && lo > 0
    ensures hi * lo > 0 && y * lo % (hi * lo) == (y % hi) * lo
  {
    var q, r := y / hi, y % hi;
    assert y * lo == q * (hi * lo) + r * lo by {
      assert y == q * hi + r;
      assert (q * hi + r) * lo == (q * hi) * lo + r * lo;
      assert (q * hi) * lo == q * (hi * lo);
    }
    assert r * lo < hi * lo;
    ModUnique(y * lo, q, r * lo, hi * lo);
  }

  lemma ModUnique(x: nat, q: nat, r: nat, m: nat)
    requires m > 0 && x == q * m + r && r < m
    ensures x % m == r && x / m == q
  {
    var d := x / m - q;
    assert x == (x / m) * m + x % m;
    assert d * m == r - x % m;
    assert d * m < m && d * m + m > 0;
    assert d < 1;
    assert d > -1;
  }
}
