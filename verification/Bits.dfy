/** Bitwise operations of C's unsigned integers, on natural numbers. */
module Bits {

  function Pow2(k: nat): (p: nat)
    ensures p >= 1
  {
    if k == 0 then 1 else 2 * Pow2(k - 1)
  }

  /** The C operator `&`, bit by bit from the lowest. */
  function And(x: nat, y: nat): nat {
    if x == 0 || y == 0 then 0
    else 2 * And(x / 2, y / 2) + (if x % 2 == 1 && y % 2 == 1 then 1 else 0)
  }

  /** The C operator `>>`, one position at a time. */
  function ShiftRight(x: nat, k: nat): nat {
    if k == 0 then x else ShiftRight(x / 2, k - 1)
  }

  /** Doubling a modulus: the low bit of x is kept, the rest is reduced on its own. */
  lemma DoubledModulus(x: nat, m: nat)
    requires m >= 1
    ensures x % (2 * m) == 2 * (x / 2 % m) + x % 2
    ensures x / (2 * m) == x / 2 / m
  {
    var h := x / 2;
    var q, r := h / m, h % m;
    assert h == q * m + r;
    assert x == q * (2 * m) + (2 * r + x % 2);
    DivModUnique(x, 2 * m, q, 2 * r + x % 2);
  }

  lemma DivMod(x: nat, m: nat)
    requires m >= 1
    ensures x == (x / m) * m + x % m
  {
  }

  lemma DivModUnique(x: nat, m: nat, q: nat, r: nat)
    requires 0 <= r < m && x == q * m + r
    ensures x / m == q && x % m == r
  {
    var q', r' := x / m, x % m;
    assert x == q' * m + r';
    SameMultiple(m, q, r, q', r');
  }

  lemma SameMultiple(m: nat, q: nat, r: nat, q': nat, r': nat)
    requires r < m && r' < m && q * m + r == q' * m + r'
    ensures q == q' && r == r'
  {
    if q > q' {
      MultipleGap(m, q, q');
    } else if q' > q {
      MultipleGap(m, q', q);
    }
  }

  lemma MultipleGap(m: nat, hi: nat, lo: nat)
    requires hi > lo
    ensures hi * m >= lo * m + m
  {
    var gap := hi - lo - 1;
    assert (lo + gap + 1) * m == lo * m + gap * m + m;
    assert gap * m >= 0;
  }

  /** Masking with 2^k - 1 is reduction modulo 2^k. */
  lemma {:induction false} MaskIsModulo(x: nat, k: nat)
    ensures And(x, Pow2(k) - 1) == x % Pow2(k)
    decreases k
  {
    if k > 0 {
      MaskIsModulo(x / 2, k - 1);
      DoubledModulus(x, Pow2(k - 1));
      assert (Pow2(k) - 1) / 2 == Pow2(k - 1) - 1;
    }
  }

  lemma {:induction false} ShiftIsDivision(x: nat, k: nat)
    ensures ShiftRight(x, k) == x / Pow2(k)
    decreases k
  {
    if k > 0 {
      ShiftIsDivision(x / 2, k - 1);
      DoubledModulus(x, Pow2(k - 1));
    }
  }

  /** Bit by bit: each bit of x & y is set when it is set in both. */
  lemma {:induction false} AndBits(x: nat, y: nat, k: nat)
    ensures And(x, y) / Pow2(k) % 2 == if x / Pow2(k) % 2 == 1 && y / Pow2(k) % 2 == 1 then 1 else 0
    decreases k
  {
    if k > 0 {
      AndBits(x / 2, y / 2, k - 1);
      DoubledModulus(x, Pow2(k - 1));
      DoubledModulus(y, Pow2(k - 1));
      DoubledModulus(And(x, y), Pow2(k - 1));
      assert And(x, y) / 2 == And(x / 2, y / 2);
    }
  }

  /** Testing one bit. */
  lemma {:induction false} AndWithPow2(x: nat, k: nat)
    ensures And(x, Pow2(k)) == if x / Pow2(k) % 2 == 1 then Pow2(k) else 0
    decreases k
  {
    if k > 0 {
      AndWithPow2(x / 2, k - 1);
      DoubledModulus(x, Pow2(k - 1));
    } else {
      assert x == 1 || And(x / 2, 0) == 0;
    }
  }

  lemma {:induction false} ShiftOfAnd(x: nat, y: nat, k: nat)
    ensures ShiftRight(And(x, y), k) == And(ShiftRight(x, k), ShiftRight(y, k))
    decreases k
  {
    if k > 0 {
      ShiftOfAnd(x / 2, y / 2, k - 1);
      assert And(x, y) / 2 == And(x / 2, y / 2);
    }
  }

  /** c is the quotient n/d rounded up: the least number of groups of d that hold n. */
  ghost predicate IsCeiling(c: nat, n: nat, d: nat) {
    n <= c * d && (c > 0 ==> (c - 1) * d < n)
  }

  lemma ShiftAndMaskIsCeiling(n: nat, k: nat)
    ensures IsCeiling(ShiftRight(n, k) + (if And(n, Pow2(k) - 1) != 0 then 1 else 0), n, Pow2(k))
  {
    MaskIsModulo(n, k);
    ShiftIsDivision(n, k);
    CeilingByDivision(n, Pow2(k));
  }

  lemma CeilingByDivision(n: nat, d: nat)
    requires d >= 1
    ensures IsCeiling(n / d + (if n % d != 0 then 1 else 0), n, d)
  {
    var q, r := n / d, n % d;
    assert n == q * d + r;
    QuotientRoundsUp(n, d, q, r);
  }

  lemma QuotientRoundsUp(n: nat, d: nat, q: nat, r: nat)
    requires r < d && n == q * d + r
    ensures IsCeiling(q + (if r != 0 then 1 else 0), n, d)
  {
    if r == 0 {
      assert (q - 1) * d == q * d - d;
    } else {
      assert (q + 1) * d == q * d + d;
    }
  }

  /** A number that satisfies IsCeiling is the quotient rounded up. */
  lemma CeilingIsUnique(c: nat, n: nat, d: nat)
    requires d >= 1 && IsCeiling(c, n, d)
    ensures c == (n + d - 1) / d
  {
    var gap := c * d - n;
    assert c > 0 ==> (c - 1) * d == c * d - d;
    DivModUnique(n + d - 1, d, c, d - 1 - gap);
  }
}
