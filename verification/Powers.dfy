/** Powers of two, the sides of the squares that BDD levels stand for, and division facts. */
module Powers {

  function Pow2(k: nat): (p: nat)
    ensures p >= 1
  {
    if k == 0 then 1 else 2 * Pow2(k - 1)
  }

  lemma {:induction false} Pow2Add(a: nat, b: nat)
    ensures Pow2(a + b) == Pow2(a) * Pow2(b)
  {
    if a > 0 {
      Pow2Add(a - 1, b);
      assert Pow2(a + b) == 2 * (Pow2(a - 1) * Pow2(b));
    }
  }

  lemma {:induction false} Pow2Monotone(a: nat, b: nat)
    requires a <= b
    ensures Pow2(a) <= Pow2(b)
    ensures a < b ==> 2 * Pow2(a) <= Pow2(b)
    decreases b
  {
    if a < b {
      Pow2Monotone(a, b - 1);
    }
  }

  // Rows of the rectangle a level stands for: every even level doubles them.
  function Height(l: nat): (p: nat)
    ensures p >= 1
  {
    if l == 0 then 1 else if l % 2 == 0 then 2 * Height(l - 1) else Height(l - 1)
  }

  // Columns of the rectangle a level stands for: every odd level doubles them.
  function Width(l: nat): (p: nat)
    ensures p >= 1
  {
    if l == 0 then 1 else if l % 2 == 0 then Width(l - 1) else 2 * Width(l - 1)
  }

  lemma {:induction false} Shape(l: nat)
    ensures Height(l) == Pow2(l / 2) && Width(l) == Pow2(l - l / 2)
  {
    if l > 0 {
      Shape(l - 1);
      if l % 2 == 0 {
        assert (l - 1) / 2 == l / 2 - 1;
      } else {
        assert (l - 1) / 2 == l / 2;
      }
    }
  }

  lemma SquareSides(d: nat)
    ensures Height(2 * d) == Pow2(d) == Width(2 * d)
  {
    Shape(2 * d);
  }

  // ----- quotients and remainders -----

  lemma {:induction false} MulLess(a: int, b: int, p: int)
    requires a < b && p >= 0
    ensures a * p + p <= b * p
    decreases b - a
  {
    MulSub(b, 1, p);
    if a + 1 < b { MulLess(a, b - 1, p); }
  }

  lemma MulSub(a: int, b: int, p: int)
    ensures (a - b) * p == a * p - b * p
    ensures (a + b) * p == a * p + b * p
  {}

  lemma MulNonNegative(a: int, b: int)
    requires a >= 0 && b >= 0
    ensures a * b >= 0
  {
    MulLess(-1, a, b);
  }

  lemma DivModUnique(x: int, q: int, s: int, m: int)
    requires m > 0 && 0 <= s < m && x == q * m + s
    ensures x / m == q && x % m == s
  {
    var d, e := x / m, x % m;
    assert x == d * m + e;
    if d < q { MulLess(d, q, m); assert false; }
    if q < d { MulLess(q, d, m); assert false; }
  }

  lemma SmallMod(x: int, m: int)
    requires 0 <= x < m
    ensures x % m == x
  {
    DivModUnique(x, 0, x, m);
  }

  lemma ModMinusMultiple(x: int, q: int, m: int)
    requires m > 0
    ensures (x - q * m) % m == x % m
  {
    var a, b := x / m, x % m;
    assert x == a * m + b;
    MulSub(a, q, m);
    DivModUnique(x - q * m, a - q, b, m);
  }

  // A coordinate below or above the middle stays on its side when divided.
  lemma DividedHalf(x: nat, half: nat, p: nat)
    requires p > 0
    ensures 0 <= x / p && (x / p < half <==> x < half * p)
    ensures x >= half * p ==> (x - half * p) / p == x / p - half
  {
    var q, s := x / p, x % p;
    assert x == q * p + s;
    if q < 0 { MulLess(q, 0, p); assert false; }
    if q < half {
      MulLess(q, half, p);
    } else {
      MulSub(q, half, p);
      MulNonNegative(q - half, p);
      DivModUnique(x - half * p, q - half, s, p);
    }
  }
}
