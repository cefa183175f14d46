/** Fixed-width C integers as subset types, and powers of two. */
module MachineInts {
  type bit = x: int | 0 <= x < 2
  type u8 = x: int | 0 <= x < 0x100
  type u16 = x: int | 0 <= x < 0x1_0000
  type u32 = x: int | 0 <= x < 0x1_0000_0000
  type u64 = x: int | 0 <= x < 0x1_0000_0000_0000_0000
  type i32 = x: int | -0x8000_0000 <= x < 0x8000_0000
  type i64 = x: int | -0x8000_0000_0000_0000 <= x < 0x8000_0000_0000_0000
  type pos = x: int | 1 <= x witness 1

  function Abs(x: int): nat { if x < 0 then -x else x }
  function Min(a: int, b: int): int { if a < b then a else b }
  function Max(a: int, b: int): int { if a < b then b else a }

  /** Conversion to uint32_t. */
  function Wrap32(x: int): (r: u32)
    ensures -0x1_0000_0000 <= x < 0 ==> r == x + 0x1_0000_0000
    ensures 0 <= x < 0x1_0000_0000 ==> r == x
    ensures 0x1_0000_0000 <= x < 0x2_0000_0000 ==> r == x - 0x1_0000_0000
  {
    x % 0x1_0000_0000
  }

  function Pow2(e: nat): pos
  {
    if e == 0 then 1 else 2 * Pow2(e - 1)
  }

  lemma {:induction false} Pow2Add(a: nat, b: nat)
    ensures Pow2(a + b) == Pow2(a) * Pow2(b)
  {
    if a > 0 {
      Pow2Add(a - 1, b);
    }
  }

  lemma {:induction false} Pow2Monotone(a: nat, b: nat)
    requires a <= b
    ensures Pow2(a) <= Pow2(b)
  {
    if a < b {
      Pow2Monotone(a, b - 1);
    }
  }

  lemma MulAssociates(a: int, b: int, c: int)
    ensures (a * b) * c == a * (b * c)
  {
  }

  lemma MulCommutes(a: int, b: int)
    ensures a * b == b * a
  {
  }

  lemma MulSwaps(a: int, b: int, c: int)
    ensures a * (b * c) == b * (a * c)
  {
    MulAssociates(a, b, c);
    MulCommutes(a, b);
    MulAssociates(b, a, c);
  }

  lemma MulDistributes(a: int, b: int, c: int)
    ensures (a + b) * c == a * c + b * c
  {
  }

  lemma MulSigns(a: int, b: int)
    ensures (-a) * b == -(a * b) && a * (-b) == -(a * b)
  {
  }

  lemma MulMonotone(a: nat, b: nat, c: nat)
    requires a <= b
    ensures a * c <= b * c
  {
  }

  lemma MulStrict(a: nat, b: nat, c: pos)
    requires a < b
    ensures a * c < b * c
  {
  }

  lemma SmallMultiple(k: int, d: pos, m: int)
    requires k * d == m && -(d as int) < m < d
    ensures k == 0
  {
    if k > 0 {
      MulMonotone(1, k, d);
    } else if k < 0 {
      MulMonotone(1, -k, d);
      MulSigns(k, d);
    }
  }

  /** Quotient and remainder are determined by the division equation. */
  lemma DivisionIs(x: int, d: pos, q: int, r: int)
    requires x == q * d + r && 0 <= r < d
    ensures x / d == q && x % d == r
  {
    var k := x / d;
    assert x == k * d + x % d;
    MulDistributes(q, -k, d);
    MulSigns(k, d);
    SmallMultiple(q - k, d, x % d - r);
  }
}
