/** The host integers that tester.c and des.c compute with, and powers of
    two, shared by the register and the cipher models. */
module HostWords {

  /** `unsigned long long`, `unsigned` and `int` of an LP64 host, as the
      integers they hold. */
  type u64 = x: int | 0 <= x < 0x1_0000_0000_0000_0000
  type u32 = x: int | 0 <= x < 0x1_0000_0000
  type u16 = x: int | 0 <= x < 0x1_0000
  type i32 = x: int | -0x8000_0000 <= x < 0x8000_0000

  /** 2^k. */
  function Pow2(k: nat): (p: nat)
    ensures p >= 1
  {
    if k == 0 then 1 else 2 * Pow2(k - 1)
  }

  /** Pow2 grows with its exponent. */
  lemma {:induction false} Pow2Le(k: nat, j: nat)
    requires k <= j
    ensures Pow2(k) <= Pow2(j)
    decreases j
  {
    if k < j {
      Pow2Le(k, j - 1);
    }
  }
}
