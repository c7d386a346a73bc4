/** The sweep loop of GenerateData as written, `for (unsigned int i = 0; i <= N; i++)`,
    with its 32-bit unsigned counter. */
module SweepCounter {

  /** The values of a 32-bit `unsigned int`. */
  newtype uint32 = x: int | 0 <= x < 0x1_0000_0000

  const UINT32_MAX: uint32 := 0xFFFF_FFFF

  /** `i++` on an `unsigned int`: arithmetic modulo 2^32. */
  function Increment(i: uint32): (r: uint32)
    ensures r as int == (i as int + 1) % 0x1_0000_0000
  {
    if i == UINT32_MAX then 0 else i + 1
  }

  /** How many sweeps the loop starts within its first `budget` guard tests, when its
      counter holds `i` and the iteration count is `iterations`. */
  function SweepsAsWritten(i: uint32, iterations: uint32, budget: nat): (n: nat)
    decreases budget
  {
    if budget == 0 || i > iterations then 0
    else 1 + SweepsAsWritten(Increment(i), iterations, budget - 1)
  }

  /** Below the largest count the loop stops after exactly iterations - i + 1 sweeps. */
  lemma {:induction false} SweepsAsWrittenBelowMax(i: uint32, iterations: uint32, budget: nat)
    requires iterations < UINT32_MAX && i as int <= iterations as int + 1
    ensures SweepsAsWritten(i, iterations, budget) ==
      if budget < iterations as int - i as int + 1 then budget else iterations as int - i as int + 1
    decreases budget
  {
    if budget != 0 && i <= iterations {
      SweepsAsWrittenBelowMax(Increment(i), iterations, budget - 1);
    }
  }

  /** With the largest count every guard test succeeds: the counter wraps to zero
      instead of passing the count, so the loop never ends. */
  lemma {:induction false} SweepsAsWrittenAtMax(i: uint32, budget: nat)
    ensures SweepsAsWritten(i, UINT32_MAX, budget) == budget
    decreases budget
  {
    if budget != 0 {
      SweepsAsWrittenAtMax(Increment(i), budget - 1);
    }
  }
}
