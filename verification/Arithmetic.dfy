/** Numbers: the widths of C's integers, and the facts about products, quotients and remainders that several modules
    need. */
module Arithmetic {

  const WIDTH16 := 0x1_0000
  const WIDTH32 := 0x1_0000_0000

  function Min(x: nat, y: nat): nat {
    if x < y then x else y
  }

  function Times(x: nat, y: nat): nat {
    x * y
  }

  lemma MulGap(a: int, b: int, g: nat)
    ensures a < b ==> a * g + g <= b * g
  {
    if a < b {
      var k: nat := b - a - 1;
      assert 0 <= k * g;
      assert (a + 1 + k) * g == a * g + g + k * g;
    }
  }

  lemma DivModUnique(x: int, g: nat, q: int, r: int)
    requires 0 <= r < g && x == q * g + r
    ensures x / g == q && x % g == r
  {
    assert x == x / g * g + x % g;
    MulGap(q, x / g, g);
    MulGap(x / g, q, g);
  }

  lemma ModShift(x: int, k: int, g: nat)
    requires 0 < g
    ensures (x + k * g) % g == x % g
  {
    assert x + k * g == (x / g + k) * g + x % g;
    DivModUnique(x + k * g, g, x / g + k, x % g);
  }

  /** x and y leave the same remainder when their difference is a multiple of g. */
  lemma SameRemainder(x: int, y: int, k: int, g: nat)
    requires 0 < g && x == y + k * g
    ensures x % g == y % g
  {
    ModShift(y, k, g);
  }

  lemma SignModTwo(x: int)
    ensures (-x) % 2 == x % 2
  {
  }
}
