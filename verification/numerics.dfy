/** Machine-integer ranges, the source's saturating and truncating operators, and
    the few facts about division that the pixel arithmetic rests on. */
module Numerics {

  const U32_LIMIT: int := 0x1_0000_0000
  const U64_LIMIT: int := 0x1_0000_0000_0000_0000

  type Byte = x: int | 0 <= x < 256
  type U16 = x: int | 0 <= x < 0x1_0000
  type I16 = x: int | -0x8000 <= x < 0x8000
  type U32 = x: int | 0 <= x < U32_LIMIT
  type U64 = x: int | 0 <= x < U64_LIMIT

  /** The `as u32` cast of a wider unsigned value. */
  function AsU32(x: nat): U32 {
    x % U32_LIMIT
  }

  lemma AsU32Exact(x: nat)
    requires x < U32_LIMIT
    ensures AsU32(x) == x
  {
  }

  function Min(a: int, b: int): int {
    if a < b then a else b
  }

  function Max(a: int, b: int): int {
    if a < b then b else a
  }

  function Clamp(x: int, low: int, high: int): int {
    if x < low then low else if high < x then high else x
  }

  /** `a.saturating_sub(b)` on unsigned values. */
  function SaturatingSub(a: nat, b: nat): nat {
    if a < b then 0 else a - b
  }

  /** Multiplication by a non-negative factor keeps order. */
  lemma MulMonotone(a: int, b: int, c: int)
    requires 0 <= c
    ensures a <= b ==> a * c <= b * c
  {
  }

  lemma DivBounds(n: int, d: int)
    requires 0 < d
    ensures (n / d) * d <= n < (n / d + 1) * d
  {
  }

  lemma DivUnique(n: int, d: int, q: int)
    requires 0 < d
    requires q * d <= n < (q + 1) * d
    ensures n / d == q
  {
    DivBounds(n, d);
    MulMonotone(n / d + 1, q, d);
    MulMonotone(q + 1, n / d, d);
  }

  lemma DivMonotone(a: int, b: int, d: int)
    requires a <= b && 0 < d
    ensures a / d <= b / d
  {
    DivBounds(a, d);
    DivBounds(b, d);
    MulMonotone(b / d + 1, a / d, d);
  }

  lemma DivBelow(n: int, d: int, q: int)
    requires 0 < d && n < q * d
    ensures n / d < q
  {
    DivBounds(n, d);
    MulMonotone(q, n / d, d);
  }

  lemma DivAtMost(n: int, d: int, q: int)
    requires 0 < d && n <= q * d
    ensures n / d <= q
  {
    DivBounds(n, d);
    MulMonotone(q + 1, n / d, d);
  }

  /** Cancelling a common factor. */
  lemma MulDivCancel(a: int, d: int)
    requires 0 < d
    ensures (a * d) / d == a && (d * a) / d == a
  {
    DivUnique(a * d, d, a);
  }

  /** `a * b / d` as the source computes it on widened operands, so that the product
      cannot overflow: the proportional positions of layout and sampling. */
  function MulDiv(a: nat, b: nat, d: nat): nat
    requires 0 < d
  {
    var product := a * b;
    DivNonNegative(product, d);
    product / d
  }

  lemma DivNonNegative(n: nat, d: nat)
    requires 0 < d
    ensures 0 <= n / d
  {
  }

  lemma MulDivMonotone(a: nat, a': nat, b: nat, d: nat)
    requires a <= a' && 0 < d
    ensures MulDiv(a, b, d) <= MulDiv(a', b, d)
  {
    MulMonotone(a, a', b);
    DivMonotone(a * b, a' * b, d);
  }

  lemma MulDivBelow(a: nat, b: nat, d: nat)
    requires a < d && 0 < b
    ensures MulDiv(a, b, d) < b
  {
    assert a * b < b * d by { MulMonotone(a + 1, d, b); }
    DivBelow(a * b, d, b);
  }

  lemma MulDivAtMost(a: nat, b: nat, d: nat)
    requires a <= d && 0 < d
    ensures MulDiv(a, b, d) <= b
  {
    assert a * b <= b * d by { MulMonotone(a, d, b); }
    DivAtMost(a * b, d, b);
  }

  lemma MulDivWhole(b: nat, d: nat)
    requires 0 < d
    ensures MulDiv(d, b, d) == b
    ensures MulDiv(b, d, d) == b
    ensures MulDiv(0, b, d) == 0
  {
    MulDivCancel(b, d);
  }
}
