/** Bitwise operations on the natural numbers that machine words hold. */
module Bits {
  function And(x: int, y: int): (r: int)
    ensures 0 <= r
    decreases x
  {
    if x <= 0 || y <= 0 then 0 else 2 * And(x / 2, y / 2) + (if x % 2 == 1 && y % 2 == 1 then 1 else 0)
  }

  function Or(x: int, y: int): (r: int)
    ensures 0 <= r
    decreases Size(x) + Size(y)
  {
    if x <= 0 then Size(y) else if y <= 0 then x
    else 2 * Or(x / 2, y / 2) + (if x % 2 == 1 || y % 2 == 1 then 1 else 0)
  }

  function Xor(x: int, y: int): (r: int)
    ensures 0 <= r
    decreases Size(x) + Size(y)
  {
    if x <= 0 then Size(y) else if y <= 0 then x
    else 2 * Xor(x / 2, y / 2) + (if x % 2 != y % 2 then 1 else 0)
  }

  function Size(x: int): nat {
    if x < 0 then 0 else x
  }

  function Pow2(n: nat): (r: int)
    ensures r >= 1
  {
    if n == 0 then 1 else 2 * Pow2(n - 1)
  }

  predicate Bit(x: int, k: nat)
    decreases k
  {
    if k == 0 then x % 2 == 1 else Bit(x / 2, k - 1)
  }

  lemma {:induction false} NoBits(k: nat)
    ensures !Bit(0, k)
  {
    if k > 0 { NoBits(k - 1); }
  }

  lemma {:induction false} AndBits(x: int, y: int, k: nat)
    requires 0 <= x && 0 <= y
    ensures Bit(And(x, y), k) <==> Bit(x, k) && Bit(y, k)
    decreases k
  {
    if x == 0 || y == 0 {
      NoBits(k);
    } else if k > 0 {
      AndBits(x / 2, y / 2, k - 1);
    }
  }

  lemma {:induction false} OrBits(x: int, y: int, k: nat)
    requires 0 <= x && 0 <= y
    ensures Bit(Or(x, y), k) <==> Bit(x, k) || Bit(y, k)
    decreases k
  {
    if x == 0 || y == 0 {
      NoBits(k);
    } else if k > 0 {
      OrBits(x / 2, y / 2, k - 1);
    }
  }

  lemma {:induction false} XorBits(x: int, y: int, k: nat)
    requires 0 <= x && 0 <= y
    ensures Bit(Xor(x, y), k) <==> Bit(x, k) != Bit(y, k)
    decreases k
  {
    if x == 0 || y == 0 {
      NoBits(k);
    } else if k > 0 {
      XorBits(x / 2, y / 2, k - 1);
    }
  }
}

/** Facts about remainders by a divisor that is not a constant. */
module Arithmetic {
  lemma Multiples(d: int, size: int)
    requires size > 0
    ensures d >= 1 ==> size * d >= size
    ensures d <= -1 ==> size * d <= -size
  {
  }

  lemma DivModUnique(a: int, q: int, r: int, size: int)
    requires size > 0 && a == size * q + r && 0 <= r < size
    ensures a / size == q && a % size == r
  {
    var d := a / size - q;
    assert size * d == r - a % size;
    Multiples(d, size);
  }

  lemma ModUnique(a: int, q: int, r: int, size: int)
    requires size > 0 && a == size * q + r && 0 <= r < size
    ensures a % size == r
  {
    DivModUnique(a, q, r, size);
  }

  lemma ModShift(a: int, k: int, size: int)
    requires size > 0
    ensures (a + size * k) % size == a % size
  {
    assert (a + size * k) == size * (a / size + k) + a % size;
    ModUnique(a + size * k, a / size + k, a % size, size);
  }

  lemma ModAdds(a: int, b: int, size: int)
    requires size > 0
    ensures (a % size + b) % size == (a + b) % size
  {
    assert a == size * (a / size) + a % size;
    ModShift(a % size + b, a / size, size);
  }

  /** A remainder that one addition or subtraction reaches. */
  lemma Folded(a: int, size: int)
    requires size > 0 && -size < a < 2 * size
    ensures a % size == if a < 0 then a + size else if a < size then a else a - size
  {
    var r := if a < 0 then a + size else if a < size then a else a - size;
    ModUnique(a, if a < 0 then -1 else if a < size then 0 else 1, r, size);
  }

  lemma SmallMod(a: int, size: int)
    requires 0 <= a < size
    ensures a % size == a && a / size == 0
  {
    DivModUnique(a, 0, a, size);
  }

  /** Dividing twice is dividing by the product; the remainders fit together. */
  lemma DivDiv(a: int, k: int, j: int, product: int)
    requires k > 0 && j > 0 && product == k * j
    ensures product > 0 && a / product == a / k / j && a % product == k * (a / k % j) + a % k
  {
    var q, r := a / k / j, a / k % j;
    assert a / k == j * q + r;
    Distribute(k, j, q, r);
    Multiples(j - 1 - r, k);
    Distribute(k, 1, j - 1 - r, r);
    assert k * r <= k * (j - 1);
    DivModUnique(a, q, k * r + a % k, product);
  }

  lemma Distribute(k: int, j: int, q: int, r: int)
    ensures k * (j * q + r) == k * j * q + k * r
  {
  }

  /** The low digits of a number do not depend on the high ones. */
  lemma ModOfMod(a: int, k: int, j: int, product: int)
    requires k > 0 && j > 0 && product == k * j
    ensures product > 0 && a % product % k == a % k && a % product / k == a / k % j
  {
    DivDiv(a, k, j, product);
    DivModUnique(a % product, a / k % j, a % k, k);
  }
}
