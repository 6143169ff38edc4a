/**
 * Python's bitwise operators on non-negative integers, as the DAFSA encoder
 * uses them: `|`, `&` and `>>`, with `1 << k` as `Pow2(k)`. `Or` and `And`
 * are defined bit by bit; the lemmas say what they amount to for the masks
 * and flags the encoder combines.
 */
module Bits {

  /** `1 << k`. Its contract only bounds it below, so that callers can
      divide by it; the bit lemmas below carry the facts about it. */
  function Pow2(k: nat): (r: nat)
    ensures r >= 1
  {
    if k == 0 then 1 else 2 * Pow2(k - 1)
  }

  /** `x >> k` */
  function Shr(x: nat, k: nat): nat {
    x / Pow2(k)
  }

  /** `a | b` */
  function Or(a: nat, b: nat): nat
    decreases a + b
  {
    if a == 0 then b
    else if b == 0 then a
    else 2 * Or(a / 2, b / 2) + (if a % 2 == 1 || b % 2 == 1 then 1 else 0)
  }

  /** `a & b` */
  function And(a: nat, b: nat): nat
    decreases a + b
  {
    if a == 0 || b == 0 then 0
    else 2 * And(a / 2, b / 2) + (if a % 2 == 1 && b % 2 == 1 then 1 else 0)
  }

  /** Or-ing a value below 2^k into a multiple of 2^k adds it. */
  lemma {:induction false} OrDisjoint(a: nat, b: nat, k: nat)
    requires a % Pow2(k) == 0 && b < Pow2(k)
    ensures Or(a, b) == a + b
    decreases k
  {
    if a != 0 && b != 0 {
      assert k > 0;
      var p := Pow2(k - 1);
      var q := a / Pow2(k);
      assert a == q * Pow2(k);
      assert a == 2 * (q * p) by {
        assert Pow2(k) == 2 * p;
        MulAssoc(q, 2, p);
      }
      ModUnique(a, 2, q * p, 0);
      ModUnique(a / 2, p, q, 0);
      assert b / 2 < p;
      OrDisjoint(a / 2, b / 2, k - 1);
    }
  }

  lemma {:induction false} MulAssoc(x: int, y: int, z: int)
    ensures x * (y * z) == y * (x * z)
  {
  }

  /** Division with remainder is unique. */
  lemma {:induction false} ModUnique(x: int, d: int, q: int, r: int)
    requires d > 0 && 0 <= r < d && x == q * d + r
    ensures x / d == q && x % d == r
  {
    var q', r' := x / d, x % d;
    assert x == q' * d + r';
    assert (q - q') * d == r' - r;
    if q > q' {
      assert (q - q') * d >= d by { MulAtLeast(q - q', d); }
    } else if q < q' {
      assert (q' - q) * d >= d by { MulAtLeast(q' - q, d); }
    }
  }

  lemma {:induction false} MulAtLeast(n: int, d: int)
    requires n >= 1 && d > 0
    ensures n * d >= d
  {
  }

  /** The same with the operands the other way round. */
  lemma {:induction false} OrDisjointLow(b: nat, a: nat, k: nat)
    requires a % Pow2(k) == 0 && b < Pow2(k)
    ensures Or(b, a) == a + b
  {
    OrCommutes(a, b);
    OrDisjoint(a, b, k);
  }

  lemma {:induction false} OrCommutes(a: nat, b: nat)
    ensures Or(a, b) == Or(b, a)
    decreases a + b
  {
    if a != 0 && b != 0 {
      OrCommutes(a / 2, b / 2);
    }
  }

  /** Masking with 2^k - 1 keeps the k low bits. */
  lemma {:induction false} AndLowMask(x: nat, k: nat)
    ensures And(x, Pow2(k) - 1) == x % Pow2(k)
    decreases k
  {
    if k == 0 {
      assert Pow2(k) - 1 == 0;
      ModUnique(x, 1, x, 0);
    } else if x != 0 {
      AndLowMask(x / 2, k - 1);
      AndLowMaskUp(x, k);
    }
  }

  /** One more bit of mask keeps one more low bit. */
  lemma {:induction false} AndLowMaskUp(x: nat, k: nat)
    requires k > 0 && x != 0
    requires And(x / 2, Pow2(k - 1) - 1) == (x / 2) % Pow2(k - 1)
    ensures And(x, Pow2(k) - 1) == x % Pow2(k)
  {
    AndLowMaskStep(x, k);
    ModDouble(x, Pow2(k - 1));
  }

  lemma {:induction false} AndLowMaskStep(x: nat, k: nat)
    requires k > 0 && x != 0
    ensures Pow2(k) == 2 * Pow2(k - 1)
    ensures And(x, Pow2(k) - 1) == 2 * And(x / 2, Pow2(k - 1) - 1) + x % 2
  {
    var p := Pow2(k - 1);
    var m := Pow2(k) - 1;
    assert m == 2 * (p - 1) + 1 && m != 0;
    ModUnique(m, 2, p - 1, 1);
  }

  lemma {:induction false} ModDouble(x: nat, p: nat)
    requires p >= 1
    ensures x % (2 * p) == 2 * ((x / 2) % p) + x % 2
  {
    var h := x / 2;
    var q := h / p;
    assert x == 2 * h + x % 2;
    assert h == q * p + h % p;
    assert x == q * (2 * p) + (2 * (h % p) + x % 2) by {
      MulAssoc(q, 2, p);
    }
    ModUnique(x, 2 * p, q, 2 * (h % p) + x % 2);
  }

  /** Or-ing the high bit 0x80 into a value below 0x80 adds 0x80. */
  lemma {:induction false} SetHighBit(b: nat)
    requires b < 0x80
    ensures Or(b, 0x80) == b + 0x80
  {
    assert Pow2(7) == 0x80;
    OrDisjointLow(b, 0x80, 7);
  }
}
