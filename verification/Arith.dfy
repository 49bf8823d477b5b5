/** Division, alignment and powers of two. */
module Arith {

  function Min(a: nat, b: nat): nat { if a <= b then a else b }

  function Max(a: nat, b: nat): nat { if a <= b then b else a }

  lemma MulLe(a: nat, b: nat, s: nat)
    requires a <= b
    ensures a * s <= b * s
  {
  }

  lemma MulCancel(a: nat, b: nat, s: nat)
    requires a * s < (b + 1) * s
    ensures a <= b
  {
    if b + 1 <= a {
      MulLe(b + 1, a, s);
    }
  }

  lemma DivMod(x: nat, d: nat)
    requires d > 0
    ensures x == x / d * d + x % d && x / d * d <= x < (x / d + 1) * d
  {
  }

  lemma DivUnique(x: nat, d: nat, q: nat)
    requires d > 0 && q * d <= x < (q + 1) * d
    ensures x / d == q && x % d == x - q * d
  {
    var k := x / d;
    assert x == k * d + x % d;
    assert (k + 1) * d == k * d + d;
    MulCancel(k, q, d);
    MulCancel(q, k, d);
  }

  lemma MultipleOf(q: nat, d: nat)
    requires d > 0
    ensures q * d % d == 0 && q * d / d == q
  {
    assert (q + 1) * d == q * d + d;
    DivUnique(q * d, d, q);
  }

  /** Dividing twice divides by the product. */
  lemma DivDiv(x: nat, a: nat, b: nat)
    requires a > 0 && b > 0
    ensures a * b > 0 && x / a / b == x / (a * b)
  {
    var y := x / a;
    var q := y / b;
    DivMod(x, a);
    DivMod(y, b);
    MulLe(q * b, y, a);
    MulLe(y + 1, (q + 1) * b, a);
    Reordered(q, a, b);
    Reordered(q + 1, a, b);
    DivUnique(x, a * b, q);
  }

  lemma Reordered(q: nat, a: nat, b: nat)
    ensures q * b * a == q * (a * b)
  {
  }

  lemma Rest(x: nat, d: nat)
    requires d > 0
    ensures x % d <= x && (x - x % d) % d == 0
  {
    var q := x / d;
    assert x == q * d + x % d;
    RestOf(x, d, q, x % d);
  }

  lemma RestOf(x: nat, d: nat, q: nat, r: nat)
    requires d > 0 && x == q * d + r
    ensures (x - r) % d == 0
  {
    MultipleOf(q, d);
  }

  // ---- Alignment ----

  /** `x & ~(align - 1)` for a power of two */
  function AlignDown(x: nat, align: nat): (r: nat)
    requires align > 0
    ensures r <= x < r + align && r % align == 0
  {
    Rest(x, align);
    x - x % align
  }

  function AlignUp(x: nat, align: nat): (r: nat)
    requires align > 0
    ensures x <= r < x + align && r % align == 0
  {
    DivMod(x + align - 1, align);
    MultipleOf((x + align - 1) / align, align);
    (x + align - 1) / align * align
  }

  /** Two multiples of d less than d apart are equal. */
  lemma MultiplesApart(x: nat, y: nat, d: nat)
    requires d > 0 && x % d == 0 && y % d == 0 && x < y
    ensures x + d <= y
  {
    DivMod(x, d);
    DivMod(y, d);
    if y < x + d {
      assert (x / d + 1) * d == x / d * d + d;
      MulCancel(y / d, x / d, d);
      MulLe(y / d, x / d, d);
    }
  }

  /** A multiple of b is a multiple of every divisor of b. */
  lemma MultipleTrans(x: nat, b: nat, a: nat)
    requires a > 0 && b > 0 && x % b == 0 && b % a == 0
    ensures x % a == 0
  {
    DivMod(x, b);
    DivMod(b, a);
    var q := x / b * (b / a);
    assert x == x / b * b == x / b * (b / a * a) == q * a;
    MultipleOf(q, a);
  }

  /** Coarser alignment rounds further. */
  lemma AlignNested(x: nat, a: nat, b: nat)
    requires a > 0 && b > 0 && b % a == 0
    ensures AlignDown(x, b) <= AlignDown(x, a) && AlignUp(x, a) <= AlignUp(x, b)
  {
    MultipleTrans(AlignDown(x, b), b, a);
    MultipleTrans(AlignUp(x, b), b, a);
    if AlignDown(x, a) < AlignDown(x, b) {
      MultiplesApart(AlignDown(x, a), AlignDown(x, b), a);
    }
    if AlignUp(x, b) < AlignUp(x, a) {
      MultiplesApart(AlignUp(x, b), AlignUp(x, a), a);
    }
  }

  // ---- Powers of two ----

  function Pow2(n: nat): (r: nat)
    ensures r > 0
  {
    if n == 0 then 1 else 2 * Pow2(n - 1)
  }

  lemma {:induction false} Pow2Divides(m: nat, n: nat)
    requires m <= n
    ensures Pow2(n) % Pow2(m) == 0 && Pow2(m) <= Pow2(n)
  {
    if m < n {
      Pow2Divides(m, n - 1);
      var q := Pow2(n - 1) / Pow2(m);
      DivMod(Pow2(n - 1), Pow2(m));
      assert Pow2(n) == (2 * q) * Pow2(m);
      MultipleOf(2 * q, Pow2(m));
    } else {
      MultipleOf(1, Pow2(m));
    }
  }
}
