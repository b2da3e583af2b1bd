/** Integer exponentiation, as Python's `**` on a non-negative base and exponent. */
module Power {

  /** `base ** exp`; a positive base has a positive power, so a table of
      `numStates ** nbhdSize` entries is never empty when `numStates >= 1`. */
  function Pow(base: nat, exp: nat): (r: nat)
    ensures base >= 1 ==> r >= 1
  {
    if exp == 0 then 1 else base * Pow(base, exp - 1)
  }
}
