/** Bitwise operations on unsigned words, as arithmetic on naturals. */
module Bits {

  function Pow(b: nat, k: nat): (r: nat)
    ensures b > 0 ==> r > 0
  {
    if k == 0 then 1 else b * Pow(b, k - 1)
  }

  /** Bitwise and. */
  function And(x: nat, y: nat): nat {
    if x == 0 || y == 0 then 0
    else (x % 2) * (y % 2) + 2 * And(x / 2, y / 2)
  }

  function Shl(x: nat, k: nat): nat {
    x * Pow(2, k)
  }

  function Shr(x: nat, k: nat): nat {
    x / Pow(2, k)
  }

  lemma {:induction false} AndZero(x: nat, y: nat)
    ensures And(x, 0) == 0 == And(0, y)
  {
  }

  /** Masking with the `k` lowest bits takes the remainder. */
  lemma {:induction false} AndLowMask(x: nat, k: nat)
    ensures And(x, Pow(2, k) - 1) == x % Pow(2, k)
  {
    if k > 0 {
      var m := Pow(2, k - 1);
      assert Pow(2, k) == 2 * m;
      AndLowMask(x / 2, k - 1);
      assert (2 * m - 1) % 2 == 1 && (2 * m - 1) / 2 == m - 1;
      HalveRemainder(x, m);
      if m == 1 {
        AndZero(x / 2, 0);
      }
    }
  }

  lemma HalveRemainder(x: nat, m: nat)
    requires m > 0
    ensures x % (2 * m) == x % 2 + 2 * ((x / 2) % m)
  {
    var q, r := (x / 2) / m, (x / 2) % m;
    assert x == 2 * m * q + (2 * r + x % 2) by {
      assert x / 2 == m * q + r;
      assert 2 * (m * q) == 2 * m * q;
    }
    Remainder(x, 2 * m, q, 2 * r + x % 2);
  }

  lemma MultipleBound(m: int, d: int)
    requires m > 0
    ensures d > 0 ==> m * d >= m
    ensures d < 0 ==> m * d <= -m
  {
    if d > 0 {
      assert m * d >= m;
    } else if d < 0 {
      assert m * d <= -m;
    }
  }

  /** Quotient and remainder are unique. */
  lemma Remainder(x: nat, m: nat, q: nat, r: nat)
    requires m > 0 && x == m * q + r && r < m
    ensures x / m == q && x % m == r
  {
    var d := x / m - q;
    assert m * d == r - x % m by {
      assert m * (x / m) - m * q == m * d;
    }
    MultipleBound(m, d);
  }

  /** Dividing by a product is dividing twice, and a remainder by a product splits
      into a digit and a smaller remainder. */
  lemma DivideTwice(x: nat, a: nat, b: nat)
    requires a > 0 && b > 0
    ensures a * b > 0
    ensures x / (a * b) == (x / a) / b
    ensures (x % (a * b)) / a == (x / a) % b
    ensures (x % (a * b)) % a == x % a
  {
    var y := x / a;
    DivideParts(x, a, b, y / b, y % b, x % a);
  }

  lemma DivideParts(x: nat, a: nat, b: nat, q: nat, d: nat, r: nat)
    requires r < a && d < b && x == a * (b * q + d) + r
    ensures a * b > 0 && x / (a * b) == q && x % (a * b) == a * d + r
    ensures (a * d + r) / a == d && (a * d + r) % a == r
  {
    Compose(a, b, q, d, r);
    Remainder(x, a * b, q, a * d + r);
    Remainder(a * d + r, a, d, r);
  }

  lemma Compose(a: nat, b: nat, q: nat, d: nat, r: nat)
    requires r < a && d < b
    ensures a * b > 0 && a * d + r < a * b
    ensures a * (b * q + d) + r == (a * b) * q + (a * d + r)
  {
    assert a * (d + 1) <= a * b;
    assert a * (b * q) == (a * b) * q;
  }

  lemma {:induction false} AndEven(x: nat, m: nat)
    ensures And(x, 2 * m) == 2 * And(x / 2, m)
  {
    if x > 0 && m > 0 {
      assert (2 * m) % 2 == 0 && (2 * m) / 2 == m;
    }
  }

  /** Masking the field of `w` bits at `k` keeps that field in place. */
  lemma {:induction false} MaskField(x: nat, w: nat, k: nat)
    ensures And(x, Shl(Pow(2, w) - 1, k)) == (Shr(x, k) % Pow(2, w)) * Pow(2, k)
  {
    if k == 0 {
      AndLowMask(x, w);
    } else {
      var p, ones := Pow(2, k - 1), Pow(2, w) - 1;
      var field := Shr(x / 2, k - 1) % Pow(2, w);
      Reassociate(ones, p);
      AndEven(x, ones * p);
      MaskField(x / 2, w, k - 1);
      DivideTwice(x, 2, p);
      Reassociate(field, p);
    }
  }

  lemma Reassociate(a: nat, b: nat)
    ensures a * (2 * b) == 2 * (a * b)
  {
  }

  /** Shifting the masked word down reads the field. */
  lemma ReadField(x: nat, w: nat, k: nat)
    ensures Shr(And(x, Shl(Pow(2, w) - 1, k)), k) == Shr(x, k) % Pow(2, w)
  {
    MaskField(x, w, k);
    ExactDivide(Shr(x, k) % Pow(2, w), Pow(2, k));
  }

  lemma ExactDivide(a: nat, b: nat)
    requires b > 0
    ensures a * b / b == a
  {
    Remainder(a * b, b, a, 0);
  }

  /** A shift by four bits is one hexadecimal place. */
  lemma {:induction false} NibblePow(k: nat)
    ensures Pow(2, 4 * k) == Pow(16, k)
  {
    if k > 0 {
      NibblePow(k - 1);
      var j := 4 * k;
      assert Pow(2, j) == 2 * Pow(2, j - 1);
      assert Pow(2, j - 1) == 2 * Pow(2, j - 2);
      assert Pow(2, j - 2) == 2 * Pow(2, j - 3);
      assert Pow(2, j - 3) == 2 * Pow(2, j - 4);
    }
  }

  lemma {:induction false} PowAdd(b: nat, j: nat, k: nat)
    ensures Pow(b, j + k) == Pow(b, j) * Pow(b, k)
  {
    if k > 0 {
      PowAdd(b, j, k - 1);
      assert b * (Pow(b, j) * Pow(b, k - 1)) == Pow(b, j) * (b * Pow(b, k - 1));
    } else {
      assert Pow(b, 0) == 1;
    }
  }
}
