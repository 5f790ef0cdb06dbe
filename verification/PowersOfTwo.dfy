/** Powers of two and the rounding to the next one. */
module PowersOfTwo {

  const TWO32: nat := 0x1_0000_0000
  const TWO64: nat := 0x1_0000_0000_0000_0000

  function Pow2(n: nat): (p: nat)
    ensures p > 0
  {
    if n == 0 then 1 else 2 * Pow2(n - 1)
  }

  lemma {:induction false} Pow2Monotone(a: nat, b: nat)
    requires a <= b
    ensures Pow2(a) <= Pow2(b)
    ensures a < b ==> Pow2(a) < Pow2(b)
    decreases b
  {
    if a < b { Pow2Monotone(a, b - 1); }
  }

  lemma {:induction false} Pow2Add(a: nat, b: nat)
    ensures Pow2(a + b) == Pow2(a) * Pow2(b)
  {
    if a > 0 {
      Pow2Add(a - 1, b);
      assert Pow2(a + b) == 2 * Pow2(a - 1 + b);
    }
  }

  lemma Pow2Of32()
    ensures Pow2(32) == 0x1_0000_0000
  {
    assert Pow2(8) == 256;
    Pow2Add(8, 8);
    Pow2Add(16, 16);
  }

  lemma Pow2Of64()
    ensures Pow2(64) == TWO64 && Pow2(63) == TWO64 / 2
  {
    Pow2Of32();
    Pow2Add(32, 32);
  }

  /** The least exponent e with n <= 2^e: what next_power_of_two rounds to. */
  function CeilLog2(n: nat): (e: nat)
    ensures n <= Pow2(e)
    ensures e > 0 ==> Pow2(e - 1) < n
  {
    if n <= 1 then 0
    else
      var e := CeilLog2((n + 1) / 2);
      assert Pow2(e + 1) == 2 * Pow2(e);
      e + 1
  }

  lemma {:induction false} CeilLog2Monotone(m: nat, n: nat)
    requires m <= n
    ensures CeilLog2(m) <= CeilLog2(n)
  {
    if m > 1 {
      CeilLog2Monotone((m + 1) / 2, (n + 1) / 2);
    }
  }

  lemma {:induction false} CeilLog2Is(n: nat, e: nat)
    requires n <= Pow2(e) && (e > 0 ==> Pow2(e - 1) < n)
    ensures CeilLog2(n) == e
  {
    var c := CeilLog2(n);
    if c < e { Pow2Monotone(c, e - 1); }
    if e < c { Pow2Monotone(e, c - 1); }
  }

  lemma {:induction false} CeilLog2OfPow2(e: nat)
    ensures CeilLog2(Pow2(e)) == e
  {
    CeilLog2Is(Pow2(e), e);
  }
}
