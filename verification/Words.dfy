/** Unsigned 32-bit counters. */
module Words {
  const WORD: nat := 0x1_0000_0000

  function CountUp(x: nat): nat { (x + 1) % WORD }
  function CountDown(x: nat): nat { if x == 0 then WORD - 1 else x - 1 }
}
