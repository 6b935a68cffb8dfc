/** 64-bit unsigned machine arithmetic. The release profile of the crate leaves
    overflow checks off, so `u64` and `usize` operations wrap around. */
module MachineWords {
  const WORD_MODULUS: nat := 0x1_0000_0000_0000_0000

  function Wrap(n: int): nat
  {
    n % WORD_MODULUS
  }

  lemma {:induction false} WrapFits(n: nat)
    requires n < WORD_MODULUS
    ensures Wrap(n) == n
  {}
}
