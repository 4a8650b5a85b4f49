/** Machine words and the bit operators the tree arithmetic uses, over unbounded naturals.

    Every operator is defined by halving, so that a fact about `2*y + b` follows from the
    same fact about `y`. */
module Bits {

  const U64_SIZE: nat := 0x1_0000_0000_0000_0000

  /** A Rust `u64`. */
  type u64 = x: int | 0 <= x < 0x1_0000_0000_0000_0000

  function Min(a: int, b: int): int { if a <= b then a else b }

  function Pow2(k: nat): (p: nat)
    ensures 1 <= p
  {
    if k == 0 then 1 else 2 * Pow2(k - 1)
  }

  predicate IsPow2(x: nat) {
    x == 1 || (x >= 2 && x % 2 == 0 && IsPow2(x / 2))
  }

  /** `x << k`, before truncation to a word. */
  function Shl(x: nat, k: nat): nat {
    if k == 0 then x else 2 * Shl(x, k - 1)
  }

  /** `x >> k`. */
  function Shr(x: nat, k: nat): nat {
    if k == 0 then x else Shr(x / 2, k - 1)
  }

  /** `x & y`. */
  function And(x: nat, y: nat): nat {
    if x == 0 || y == 0 then 0
    else 2 * And(x / 2, y / 2) + if x % 2 == 1 && y % 2 == 1 then 1 else 0
  }

  /** `x | y`. */
  function Or(x: nat, y: nat): nat {
    if x == 0 then y
    else if y == 0 then x
    else 2 * Or(x / 2, y / 2) + if x % 2 == 1 || y % 2 == 1 then 1 else 0
  }

  /** `x ^ y`. */
  function Xor(x: nat, y: nat): nat {
    if x == 0 then y
    else if y == 0 then x
    else 2 * Xor(x / 2, y / 2) + if x % 2 != y % 2 then 1 else 0
  }

  /** `x.trailing_ones()`. */
  function TrailingOnes(x: nat): nat {
    if x % 2 == 0 then 0 else 1 + TrailingOnes(x / 2)
  }

  /** `x.checked_ilog2().unwrap_or(0)`. */
  function Log2(x: nat): nat {
    if x < 2 then 0 else 1 + Log2(x / 2)
  }

  /** At most one power of two lies in `[s/2, s)`. */
  lemma {:induction false} Pow2Unique(p: nat, q: nat, s: nat)
    requires IsPow2(p) && IsPow2(q)
    requires p < s <= 2 * p && q < s <= 2 * q
    ensures p == q
  {
    if p > 1 && q > 1 {
      Pow2Unique(p / 2, q / 2, (s + 1) / 2);
    }
  }

  lemma MulMono(a: nat, b: nat, s: nat)
    requires a <= b
    ensures a * s <= b * s
  {
    assert b * s == a * s + (b - a) * s;
  }
}
