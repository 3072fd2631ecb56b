/** Division and multiplication facts used by the address arithmetic. */
module Arithmetic {

  lemma MulStep(a: int, b: int, s: int)
    requires a < b && 0 <= s
    ensures a * s + s <= b * s
  {
    assert (b - a - 1) * s >= 0;
  }

  lemma MulOrder(a: int, b: int, s: int)
    requires 0 < s
    ensures a < b <==> a * s < b * s
    ensures a <= b <==> a * s <= b * s
  {
    if a < b {
      MulStep(a, b, s);
    } else if b < a {
      MulStep(b, a, s);
    }
  }

  lemma DivUnique(x: int, q: int, s: int)
    requires 0 < s && q * s <= x < q * s + s
    ensures x / s == q
  {
    if x / s < q {
      MulStep(x / s, q, s);
    } else if q < x / s {
      MulStep(q, x / s, s);
    }
  }

  lemma DivOrder(x: int, y: int, s: int)
    requires 0 < s && x <= y
    ensures x / s <= y / s
  {
    if y / s < x / s {
      MulStep(y / s, x / s, s);
    }
  }

  lemma DivNat(x: nat, s: int)
    requires 0 < s
    ensures 0 <= x / s
  {
    DivUnique(0, 0, s);
    DivOrder(0, x, s);
  }

  lemma DivDiv(x: int, a: int, b: int)
    requires 0 < a && 0 < b
    ensures 0 < a * b && x / a / b == x / (a * b)
  {
    var q := x / a / b;
    var r := x / a - q * b;
    assert x == a * (q * b + r) + x % a;
    assert a * (q * b) == q * (a * b);
    MulStep(r, b, a);
    DivUnique(x, q, a * b);
  }

  /** Flat index and (row, column) are the same position in rows of `w`. */
  lemma RowColumn(i: int, s: int, w: int)
    requires 0 < w && 0 <= s < w
    ensures (w * i + s) / w == i && (w * i + s) % w == s
  {
    DivUnique(w * i + s, i, w);
  }

  /** A remainder is what a quotient leaves. */
  lemma ModBounds(x: nat, s: int)
    requires 0 < s
    ensures 0 <= x % s < s && 0 <= x / s && x == x / s * s + x % s
  {
    DivNat(x, s);
  }
}
