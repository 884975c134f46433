/** Numbers and powers of two. */
module Numbers {
  const TWO_32 := 0x1_0000_0000
  const NSEC_PER_SEC := 1_000_000_000

  function Pow2(n: nat): (p: nat)
    ensures p > 0
  {
    if n == 0 then 1 else 2 * Pow2(n - 1)
  }

  /** Shifting by `a + b` bits is shifting by `a` and then by `b`. */
  lemma {:induction false} ShiftsAdd(a: nat, b: nat)
    ensures Pow2(a + b) == Pow2(a) * Pow2(b)
  {
    if a > 0 {
      ShiftsAdd(a - 1, b);
    }
  }

  lemma ByteShifts()
    ensures Pow2(0) == 1 && Pow2(8) == 256 && Pow2(16) == 65536 && Pow2(24) == 16777216 && Pow2(32) == TWO_32
  {
    assert Pow2(8) == 256;
    ShiftsAdd(8, 8);
    ShiftsAdd(16, 8);
    ShiftsAdd(24, 8);
  }
}
