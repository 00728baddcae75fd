/** Bitwise operations on unsigned words, bit by bit, and what they amount to when fields do not overlap. */
module Bits {

  function Pow2(n: nat): (r: nat)
    ensures r >= 1
  {
    if n == 0 then 1 else 2 * Pow2(n - 1)
  }

  function And(x: nat, y: nat): (r: nat)
    ensures r <= x
  {
    if x == 0 || y == 0 then 0 else 2 * And(x / 2, y / 2) + (x % 2) * (y % 2)
  }

  function Or(x: nat, y: nat): nat {
    if x == 0 && y == 0 then 0
    else 2 * Or(x / 2, y / 2) + (if x % 2 == 1 || y % 2 == 1 then 1 else 0)
  }

  function ShiftLeft(x: nat, n: nat): nat {
    x * Pow2(n)
  }

  function ShiftRight(x: nat, n: nat): nat {
    if n == 0 then x else ShiftRight(x / 2, n - 1)
  }

  lemma {:induction false} ShiftDivides(x: nat, n: nat)
    ensures ShiftRight(x, n) == x / Pow2(n)
  {
    if n == 0 {
      assert Pow2(0) == 1;
    } else {
      ShiftDivides(x / 2, n - 1);
      PowStep(n);
      HalfDivided(x, Pow2(n - 1));
    }
  }

  lemma {:induction false} PowStep(n: nat)
    requires n > 0
    ensures Pow2(n) == 2 * Pow2(n - 1)
  {
  }

  /** Masking with n ones keeps the n lowest bits. */
  lemma {:induction false} Mask(x: nat, n: nat)
    ensures And(x, Pow2(n) - 1) == x % Pow2(n)
  {
    hide And, Pow2;
    LowBits(x, n);
  }

  function Rest(x: nat, m: nat): nat
    requires m >= 1
  {
    x % m
  }

  lemma {:induction false} LowBits(x: nat, n: nat)
    ensures And(x, Pow2(n) - 1) == Rest(x, Pow2(n))
  {
    hide And, Pow2, Rest;
    if n == 0 {
      NoBits(x);
    } else {
      PowStep(n);
      LowBits(x / 2, n - 1);
      AndStep(x, Pow2(n - 1));
      RestStep(x, Pow2(n - 1));
    }
  }

  lemma {:induction false} NoBits(x: nat)
    ensures Pow2(0) == 1 && And(x, 0) == 0 && Rest(x, 1) == 0
  {
  }

  lemma {:induction false} RestStep(x: nat, p: nat)
    requires p >= 1
    ensures Rest(x, 2 * p) == 2 * Rest(x / 2, p) + x % 2
  {
    HalfDivided(x, p);
  }

  lemma {:induction false} AndStep(x: nat, p: nat)
    requires p >= 1
    ensures And(x, 2 * p - 1) == 2 * And(x / 2, p - 1) + x % 2
  {
    assert (2 * p - 1) / 2 == p - 1 && (2 * p - 1) % 2 == 1;
    if x == 0 {
      assert And(0, 2 * p - 1) == 0;
    }
  }

  lemma {:induction false} HalfDivided(x: nat, p: nat)
    requires p >= 1
    ensures x % (2 * p) == 2 * (x / 2 % p) + x % 2 && x / (2 * p) == x / 2 / p
  {
    var q, r := x / 2 / p, x / 2 % p;
    assert x / 2 == q * p + r;
    assert x == 2 * (x / 2) + x % 2;
    Twice(q, p);
    assert x == q * (2 * p) + (2 * r + x % 2);
    Remainder(x, 2 * p, q, 2 * r + x % 2);
  }

  lemma {:induction false} Remainder(x: nat, m: nat, q: nat, r: nat)
    requires m >= 1 && x == q * m + r && r < m
    ensures x % m == r && x / m == q
  {
    var q', r' := x / m, x % m;
    assert x == q' * m + r';
    if q < q' {
      Times(q + 1, q', m);
    } else if q' < q {
      Times(q' + 1, q, m);
    }
  }

  lemma {:induction false} Times(a: nat, b: nat, m: nat)
    requires a <= b
    ensures a * m <= b * m && (a >= 1 ==> a * m == (a - 1) * m + m)
  {
  }

  lemma {:induction false} Twice(x: nat, p: nat)
    ensures x * (2 * p) == 2 * (x * p)
  {
  }

  /** An upper field and a lower field of n bits. */
  lemma {:induction false} Join(x: nat, y: nat, n: nat)
    requires y < Pow2(n)
    ensures Or(ShiftLeft(x, n), y) == x * Pow2(n) + y
  {
    if n == 0 {
      OrZero(x);
    } else {
      hide Or, Pow2;
      var p := Pow2(n - 1);
      PowStep(n);
      Twice(x, p);
      calc {
        Or(2 * (x * p), y);
      ==  { OrStep(x * p, y); }
        2 * Or(x * p, y / 2) + y % 2;
      ==  { Join(x, y / 2, n - 1); }
        2 * (x * p + y / 2) + y % 2;
      }
    }
  }

  lemma {:induction false} OrStep(z: nat, y: nat)
    ensures Or(2 * z, y) == 2 * Or(z, y / 2) + y % 2
  {
    assert 2 * z / 2 == z && 2 * z % 2 == 0;
  }

  lemma {:induction false} OrZero(x: nat)
    ensures Or(x, 0) == x
  {
    if x != 0 {
      OrZero(x / 2);
    }
  }
}
