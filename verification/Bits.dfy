/** C's bit operators on unsigned words, as functions on natural numbers, and what the
    shifts and masks of the memory manager come to in div and mod. */
module Bits {

  function Pow2(n: nat): (r: nat)
    ensures r >= 1
  {
    if n == 0 then 1 else 2 * Pow2(n - 1)
  }

  /** a & b */
  function And(a: nat, b: nat): nat
    decreases a
  {
    if a == 0 || b == 0 then 0 else 2 * And(a / 2, b / 2) + (if a % 2 == 1 && b % 2 == 1 then 1 else 0)
  }

  /** a | b */
  function Or(a: nat, b: nat): nat
    decreases a
  {
    if a == 0 then b else if b == 0 then a
    else 2 * Or(a / 2, b / 2) + (if a % 2 == 1 || b % 2 == 1 then 1 else 0)
  }

  /** a & ~b */
  function Clear(a: nat, b: nat): nat
    decreases a
  {
    if a == 0 then 0 else if b == 0 then a
    else 2 * Clear(a / 2, b / 2) + (if a % 2 == 1 && b % 2 == 0 then 1 else 0)
  }

  /** a >> n */
  function ShiftRight(a: nat, n: nat): nat
    decreases n
  {
    if n == 0 then a else ShiftRight(a / 2, n - 1)
  }

  lemma {:induction false} ShiftIsDiv(a: nat, n: nat)
    ensures ShiftRight(a, n) == a / Pow2(n)
    decreases n
  {
    if n > 0 {
      ShiftIsDiv(a / 2, n - 1);
      HalfThenRest(a, Pow2(n - 1));
    }
  }

  lemma HalfThenRest(a: nat, p: nat)
    requires p >= 1
    ensures (a / 2) / p == a / (2 * p)
  {
    var q, r := (a / 2) / p, (a / 2) % p;
    assert a / 2 == q * p + r;
    assert a == q * (2 * p) + (2 * r + a % 2);
    Quotient(a, 2 * p, q, 2 * r + a % 2);
  }

  lemma Quotient(a: nat, d: nat, q: nat, r: nat)
    requires d >= 1 && a == q * d + r && r < d
    ensures a / d == q && a % d == r
  {
    var e := a / d - q;
    assert e * d == r - a % d;
    Scaled(e, d);
  }

  lemma Scaled(e: int, d: nat)
    ensures e >= 1 ==> e * d >= d
    ensures e <= -1 ==> e * d + d <= 0
  {
  }

  lemma {:induction false} ShiftTwice(a: nat, m: nat, n: nat)
    ensures ShiftRight(a, m + n) == ShiftRight(ShiftRight(a, m), n)
    decreases m
  {
    if m > 0 { ShiftTwice(a / 2, m - 1, n); }
  }

  lemma OrStep(a: nat, b: nat)
    ensures Or(a, b) == if a == 0 then b else if b == 0 then a
                        else 2 * Or(a / 2, b / 2) + (if a % 2 == 1 || b % 2 == 1 then 1 else 0)
  {
  }

  lemma ClearStep(a: nat, b: nat)
    ensures Clear(a, b) == if a == 0 then 0 else if b == 0 then a
                           else 2 * Clear(a / 2, b / 2) + (if a % 2 == 1 && b % 2 == 0 then 1 else 0)
  {
  }

  lemma HalfOfSplit(h: nat, l: nat, n: nat)
    requires n >= 1 && l < Pow2(n)
    ensures (h * Pow2(n) + l) / 2 == h * Pow2(n - 1) + l / 2
    ensures (h * Pow2(n) + l) % 2 == l % 2
    ensures l / 2 < Pow2(n - 1)
  {
    var q := h * Pow2(n - 1);
    assert h * Pow2(n) == 2 * q;
  }

  /** A mask of n low bits keeps the remainder. */
  lemma {:induction false} MaskIsMod(h: nat, l: nat, n: nat)
    requires l < Pow2(n)
    ensures And(h * Pow2(n) + l, Pow2(n) - 1) == l
  {
    if n > 0 {
      HalfOfSplit(h, l, n);
      MaskIsMod(h, l / 2, n - 1);
      assert (Pow2(n) - 1) / 2 == Pow2(n - 1) - 1;
    }
  }

  /** Clearing n low bits keeps the multiple. */
  lemma {:induction false} ClearMaskIsFloor(h: nat, l: nat, n: nat)
    requires l < Pow2(n)
    ensures Clear(h * Pow2(n) + l, Pow2(n) - 1) == h * Pow2(n)
  {
    if n > 0 {
      HalfOfSplit(h, l, n);
      ClearMaskIsFloor(h, l / 2, n - 1);
      assert (Pow2(n) - 1) / 2 == Pow2(n - 1) - 1;
      assert h * Pow2(n) == 2 * (h * Pow2(n - 1));
    }
  }

  /** Or and Clear with a number below 2^n act on the low n bits only. */
  lemma {:induction false} OrLow(h: nat, l: nat, f: nat, n: nat)
    requires l < Pow2(n) && f < Pow2(n)
    ensures Or(h * Pow2(n) + l, f) == h * Pow2(n) + Or(l, f)
    ensures Or(l, f) < Pow2(n)
  {
    if n > 0 {
      HalfOfSplit(h, l, n);
      OrLow(h, l / 2, f / 2, n - 1);
      assert h * Pow2(n) == 2 * (h * Pow2(n - 1));
    }
  }

  lemma {:induction false} ClearLow(h: nat, l: nat, f: nat, n: nat)
    requires l < Pow2(n) && f < Pow2(n)
    ensures Clear(h * Pow2(n) + l, f) == h * Pow2(n) + Clear(l, f)
    ensures Clear(l, f) < Pow2(n)
  {
    if n > 0 {
      HalfOfSplit(h, l, n);
      ClearLow(h, l / 2, f / 2, n - 1);
      assert h * Pow2(n) == 2 * (h * Pow2(n - 1));
    }
  }
}
