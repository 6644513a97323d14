/** Fixed-width machine arithmetic: 32-bit digits, 64-bit words, and the
    conversions C performs when a result leaves its type. */
module Machine {
  import opened Powers

  const B: int := 0x1_0000_0000
  const W: int := 0x1_0000_0000_0000_0000

  type Digit = d: int | 0 <= d < B
  type Word = w: int | 0 <= w < W

  /** Conversion to uint64_t. */
  function U64(x: int): (r: Word)
    ensures 0 <= x < W ==> r == x
  {
    x % W
  }

  /** Conversion to int64_t. */
  function S64(x: int): (r: int)
    ensures -(W / 2) <= r < W / 2
    ensures -(W / 2) <= x < W / 2 ==> r == x
  {
    (x + W / 2) % W - W / 2
  }

  /** A carry or a borrow of one bit as a number. */
  function Bit(c: bool): nat { if c then 1 else 0 }

  lemma ProductBound(x: nat, y: nat)
    requires x < B && y < B
    ensures 0 <= x * y <= (B - 1) * (B - 1)
  {
    MulMono(y, 0, x);
    MulMono(y, x, B - 1);
    MulMono(B - 1, y, B - 1);
  }

  lemma TwoToThe64()
    ensures Pow(2, 64) == W && Pow(2, 32) == B
  {
    assert Pow(2, 4) == 16;
    PowAdd(2, 4, 4);
    PowAdd(2, 8, 8);
    PowAdd(2, 16, 16);
    PowAdd(2, 32, 32);
  }
}
