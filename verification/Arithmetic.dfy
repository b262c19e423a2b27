/** The few facts about products and quotients that the solver does not find by itself. */
module Arithmetic {
  lemma MulMono(a: nat, b: nat, d: nat)
    requires a <= b
    ensures a * d <= b * d
  {
    assert b * d == a * d + (b - a) * d;
  }

  lemma MulStrict(a: nat, b: nat, d: nat)
    ensures a < b ==> a * d + d <= b * d
  {
    if a < b {
      MulMono(a + 1, b, d);
    }
  }

  lemma DivUnique(x: nat, d: nat, q: nat, r: nat)
    requires r < d && x == q * d + r
    ensures x / d == q && x % d == r
  {
    var p, s := x / d, x % d;
    assert x == p * d + s;
    MulStrict(p, q, d);
    MulStrict(q, p, d);
  }

  lemma DivMono(a: nat, b: nat, d: nat)
    requires a <= b && d > 0
    ensures a / d <= b / d
  {
    var p, q := a / d, b / d;
    MulStrict(q, p, d);
  }

  /** A row-major index determines row and column. */
  lemma RowColumn(r: nat, c: nat, r': nat, c': nat, w: nat)
    requires c < w && c' < w && r * w + c == r' * w + c'
    ensures r == r' && c == c'
  {
    DivUnique(r * w + c, w, r, c);
    DivUnique(r' * w + c', w, r', c');
  }

  /** Row-major order: an earlier row comes first. */
  lemma RowOrder(r: nat, c: nat, r': nat, w: nat)
    requires c < w && r < r'
    ensures r * w + c < r' * w
  {
    MulMono(r + 1, r', w);
  }

  /** `align_up` for a power-of-two alignment. */
  function AlignUp(x: nat, align: nat): (r: nat)
    requires align > 0
  {
    (x + align - 1) / align * align
  }

  lemma AlignUpAligned(x: nat, align: nat)
    requires align > 0 && x % align == 0
    ensures AlignUp(x, align) == x
  {
    var q := x / align;
    assert x == q * align;
    DivUnique(x + align - 1, align, q, align - 1);
  }

  lemma AlignUpSmall(x: nat, align: nat)
    requires 0 < x <= align
    ensures AlignUp(x, align) == align
  {
    DivUnique(x + align - 1, align, 1, x - 1);
  }

  /** It is the least multiple that is large enough. */
  lemma AlignUpLeast(x: nat, align: nat)
    requires align > 0
    ensures AlignUp(x, align) % align == 0 && AlignUp(x, align) >= x
    ensures forall k: nat :: k % align == 0 && k >= x ==> k >= AlignUp(x, align)
  {
    var q, r := (x + align - 1) / align, (x + align - 1) % align;
    var up := q * align;
    assert up == x + align - 1 - r;
    DivUnique(up, align, q, 0);
    assert AlignUp(x, align) == up;
    forall k: nat | k % align == 0 && k >= x ensures k >= up {
      MultipleAtLeast(k, align, q);
    }
  }

  lemma MultipleAtLeast(k: nat, align: nat, q: nat)
    requires align > 0 && k % align == 0
    ensures k >= q * align || k + align <= q * align
  {
    var d := k / align;
    assert k == d * align;
    MulStrict(d, q, align);
    MulMono(if q <= d then q else d, d, align);
  }

  lemma DivDiv(x: nat, a: nat, b: nat)
    requires a > 0 && b > 0
    ensures a * b > 0 && x / a / b == x / (a * b)
  {
    var q, r := x / a, x % a;
    var p, s := q / b, q % b;
    assert x == q * a + r && q == p * b + s;
    assert (p * b + s) * a == p * (a * b) + s * a;
    MulStrict(s, b, a);
    assert a * b == b * a;
    DivUnique(x, a * b, p, s * a + r);
  }
}
