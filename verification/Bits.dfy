/** Masks and shifts on unsigned numbers, bit by bit, and what they are in arithmetic. */
module Bits {

  /** a & b */
  function And(a: nat, b: nat): nat {
    if a == 0 || b == 0 then 0 else (if a % 2 == 1 && b % 2 == 1 then 1 else 0) + 2 * And(a / 2, b / 2)
  }

  /** a | b */
  function Or(a: nat, b: nat): nat {
    if a == 0 then b else if b == 0 then a else (if a % 2 == 1 || b % 2 == 1 then 1 else 0) + 2 * Or(a / 2, b / 2)
  }

  /** a << k */
  function Shl(a: nat, k: nat): nat {
    if k == 0 then a else 2 * Shl(a, k - 1)
  }

  /** a >> k */
  function Shr(a: nat, k: nat): nat {
    if k == 0 then a else Shr(a / 2, k - 1)
  }

  function Pow2(k: nat): (p: nat)
    ensures 1 <= p
  {
    if k == 0 then 1 else 2 * Pow2(k - 1)
  }

  lemma {:induction false} ShlIsTimes(a: nat, k: nat)
    ensures Shl(a, k) == a * Pow2(k)
  {
    if k > 0 {
      ShlIsTimes(a, k - 1);
      Associate(a, 2, Pow2(k - 1));
    }
  }

  lemma Associate(a: nat, b: nat, c: nat)
    ensures a * (b * c) == b * (a * c)
  {
  }

  lemma {:induction false} ShrIsDivision(a: nat, k: nat)
    ensures Shr(a, k) == a / Pow2(k)
    decreases k
  {
    if k > 0 {
      ShrIsDivision(a / 2, k - 1);
      HalfFirst(a, Pow2(k - 1));
    }
  }

  /** What a two-digit number is made of. */
  lemma Digit(q: nat, r: nat, d: nat)
    requires r < d
    ensures (d * q + r) / d == q && (d * q + r) % d == r
  {
    var b := d * q + r;
    DigitsAreUnique(q, r, b / d, b % d, d);
  }

  lemma DigitsAreUnique(q: nat, r: nat, k: nat, m: nat, d: nat)
    requires r < d && m < d && d * q + r == d * k + m
    ensures q == k && r == m
  {
    if k < q {
      TimesAtLeast(d, q - k);
    } else if q < k {
      TimesAtLeast(d, k - q);
    }
  }

  lemma TimesAtLeast(d: nat, x: nat)
    requires 1 <= x
    ensures d <= d * x
  {
  }

  lemma HalfFirst(a: nat, p: nat)
    requires 1 <= p
    ensures a / 2 / p == a / (2 * p) && a % (2 * p) == a % 2 + 2 * (a / 2 % p)
  {
    var q, r := a / 2 / p, a / 2 % p;
    assert a / 2 == p * q + r;
    assert 2 * (p * q) == 2 * p * q;
    assert a == 2 * p * q + (2 * r + a % 2);
    Digit(q, 2 * r + a % 2, 2 * p);
  }

  /** Masking with w ones. */
  lemma {:induction false} LowMask(a: nat, w: nat)
    ensures And(a, Pow2(w) - 1) == a % Pow2(w)
    decreases w
  {
    if w > 0 {
      LowMask(a / 2, w - 1);
      HalfFirst(a, Pow2(w - 1));
      assert (Pow2(w) - 1) / 2 == Pow2(w - 1) - 1;
    }
  }

  lemma AndEven(a: nat, m: nat)
    ensures And(a, 2 * m) == 2 * And(a / 2, m)
  {
  }

  /** Masking with w ones above j zeros. */
  lemma {:induction false} FieldMask(a: nat, j: nat, w: nat)
    ensures And(a, Shl(Pow2(w) - 1, j)) == Shl(a / Pow2(j) % Pow2(w), j)
    decreases j
  {
    if j == 0 {
      LowMask(a, w);
    } else {
      var m := Shl(Pow2(w) - 1, j - 1);
      AndEven(a, m);
      HalfFirst(a, Pow2(j - 1));
      hide And;
      FieldMask(a / 2, j - 1, w);
    }
  }

  lemma {:induction false} ShrUndoesShl(a: nat, j: nat)
    ensures Shr(Shl(a, j), j) == a
  {
    if j > 0 {
      assert Shl(a, j) / 2 == Shl(a, j - 1);
      ShrUndoesShl(a, j - 1);
    }
  }

  /** A mask of w ones above j zeros picks a binary digit group, and shifting brings it down. */
  lemma Field(a: nat, mask: nat, j: nat, w: nat)
    requires mask == (Pow2(w) - 1) * Pow2(j)
    ensures And(a, mask) == a / Pow2(j) % Pow2(w) * Pow2(j)
    ensures Shr(And(a, mask), j) == a / Pow2(j) % Pow2(w)
  {
    ShlIsTimes(Pow2(w) - 1, j);
    FieldMask(a, j, w);
    ShlIsTimes(a / Pow2(j) % Pow2(w), j);
    ShrUndoesShl(a / Pow2(j) % Pow2(w), j);
  }

  lemma Powers()
    ensures Pow2(0) == 1 && Pow2(1) == 2 && Pow2(2) == 4 && Pow2(3) == 8 && Pow2(4) == 16
    ensures Pow2(5) == 32 && Pow2(6) == 64 && Pow2(7) == 128 && Pow2(8) == 256 && Pow2(11) == 2048
  {
  }

  /** An or of disjoint bits is a sum. */
  lemma {:induction false} OrIsSum(a: nat, b: nat, j: nat)
    requires b < Pow2(j)
    ensures Or(Shl(a, j), b) == Shl(a, j) + b
    decreases j
  {
    if j > 0 {
      OrIsSum(a, b / 2, j - 1);
    }
  }

  lemma {:induction false} OrCommutes(a: nat, b: nat)
    ensures Or(a, b) == Or(b, a)
  {
    if a > 0 && b > 0 {
      OrCommutes(a / 2, b / 2);
    }
  }

  /** The same in arithmetic, in either order. */
  lemma Sum(a: nat, p: nat, b: nat, j: nat)
    requires p == Pow2(j) && b < p
    ensures Or(a * p, b) == Or(b, a * p) == a * p + b
  {
    OrIsSum(a, b, j);
    ShlIsTimes(a, j);
    OrCommutes(a * p, b);
  }

  // ----- Positions and offsets -----

  lemma NextOffset(p: nat, n: nat, cap: nat)
    requires 0 < cap && p % cap + n < 2 * cap
    ensures (p + n) % cap == if p % cap + n < cap then p % cap + n else p % cap + n - cap
  {
    var q, o := p / cap, p % cap;
    assert p == cap * q + o;
    hide *;
    if o + n < cap {
      Digit(q, o + n, cap);
    } else {
      OneMore(q, cap);
      Digit(q + 1, o + n - cap, cap);
    }
  }

  lemma OneMore(q: nat, d: nat)
    ensures d * (q + 1) == d * q + d
  {
  }
}
