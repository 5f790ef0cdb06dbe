/** The Fibonacci hash policy of the table: which slot count a request is rounded to,
    and which slot a hash starts at. */
module HashPolicy {
  import opened PowersOfTwo
  import opened Division
  import opened BitWords

  const FIBONACCI: nat := 11400714819323198485
  // The inverse of FIBONACCI modulo 2^64; it witnesses that multiplying loses nothing.
  const INVERSE: nat := 17428512612931826493

  /** The slot a hash starts at: the product with the Fibonacci constant, wrapped to 64 bits,
      shifted right so that 64 - shift bits remain. */
  function IndexForHash(hash: nat, shift: nat): (i: nat)
    requires shift <= 64
    ensures i < Pow2(64 - shift)
  {
    ShiftRight(Product(hash), shift)
  }

  function Product(hash: nat): (w: nat)
    ensures w < TWO64
  {
    (FIBONACCI * hash) % TWO64
  }

  function ShiftRight(x: nat, shift: nat): (y: nat)
    requires x < TWO64 && shift <= 64
    ensures y < Pow2(64 - shift)
  {
    ShiftLeaves(x, shift);
    Quotient(x, Pow2(shift))
  }

  lemma ShiftLeaves(x: nat, shift: nat)
    requires x < TWO64 && shift <= 64
    ensures Quotient(x, Pow2(shift)) < Pow2(64 - shift)
  {
    Pow2Of64();
    Pow2Add(shift, 64 - shift);
    hide Pow2;
    DivisionBelow(x, Pow2(shift), Pow2(64 - shift));
  }

  /** With one slot per 64-bit hash, no two hashes start at the same slot. */
  lemma FullWidthIndexIsInjective(h1: nat, h2: nat)
    requires h1 < TWO64 && h2 < TWO64
    requires IndexForHash(h1, 0) == IndexForHash(h2, 0)
    ensures h1 == h2
  {
    Unmultiply(h1);
    Unmultiply(h2);
  }

  lemma Unmultiply(h: nat)
    requires h < TWO64
    ensures INVERSE * ((FIBONACCI * h) % TWO64) % TWO64 == h
  {
    var q, r := FIBONACCI * h / TWO64, FIBONACCI * h % TWO64;
    assert FIBONACCI * h == q * TWO64 + r;
    assert INVERSE * FIBONACCI == 10771413168148108919 * TWO64 + 1;
    assert INVERSE * r == INVERSE * (FIBONACCI * h) - INVERSE * (q * TWO64);
    assert INVERSE * r == h + TWO64 * (10771413168148108919 * h - INVERSE * q);
    ModuloOfShifted(h, 10771413168148108919 * h - INVERSE * q);
  }

  lemma ModuloOfShifted(h: nat, m: int)
    requires h < TWO64
    ensures (h + TWO64 * m) % TWO64 == h
  {
    assert (h + TWO64 * m) / TWO64 == m;
  }

  // ----- next_power_of_two, on 64-bit words

  function OrShifted(v: nat, k: nat): nat {
    Or(v, Right(v, k))
  }

  /** Copies the highest set bit into every lower position. */
  function Smear(v: nat): nat {
    OrShifted(OrShifted(OrShifted(OrShifted(OrShifted(OrShifted(v, 1), 2), 4), 8), 16), 32)
  }

  function NextPowerOfTwo(i: nat): nat {
    (Smear((i + TWO64 - 1) % TWO64) + 1) % TWO64
  }

  ghost predicate Reached(v: nat, i: nat, n: nat) {
    exists j: nat :: i <= j < i + n && Bit(v, j)
  }

  /** Every bit of a stands for the n bits of v from its place on. */
  ghost predicate Gathers(a: nat, v: nat, n: nat) {
    forall i: nat :: Bit(a, i) <==> Reached(v, i, n)
  }

  lemma GathersTwice(a: nat, v: nat, n: nat)
    requires Gathers(a, v, n)
    ensures Gathers(OrShifted(a, n), v, 2 * n)
  {
    hide Bit, Or, Right, Reached;
    forall i: nat ensures Bit(OrShifted(a, n), i) <==> Reached(v, i, 2 * n) {
      BitOfOr(a, Right(a, n), i);
      BitOfRight(a, n, i);
      ReachedInHalves(v, i, n);
    }
  }

  lemma ReachedInHalves(v: nat, i: nat, n: nat)
    ensures Reached(v, i, 2 * n) <==> Reached(v, i, n) || Reached(v, i + n, n)
  {
    hide Bit;
  }

  /** The smeared word is solid from the highest set bit down. */
  lemma SmearIsSolid(v: nat)
    requires v < TWO64
    ensures Smear(v) == Pow2(BitLength(v)) - 1
  {
    hide Bit, Smear, Pow2, BitLength, Reached;
    var n := BitLength(v);
    SmearGathers(v);
    LengthWithin64(v);
    forall i: nat ensures Bit(Smear(v), i) <==> Bit(Pow2(n) - 1, i) {
      BitOfMask(n, i);
      ReachedBelowTop(v, i);
    }
    SameBits(Smear(v), Pow2(n) - 1);
  }

  lemma SmearGathers(v: nat)
    ensures Gathers(Smear(v), v, 64)
  {
    hide Gathers, OrShifted;
    GathersItself(v);
    GathersTwice(v, v, 1);
    GathersTwice(OrShifted(v, 1), v, 2);
    GathersTwice(OrShifted(OrShifted(v, 1), 2), v, 4);
    GathersTwice(OrShifted(OrShifted(OrShifted(v, 1), 2), 4), v, 8);
    GathersTwice(OrShifted(OrShifted(OrShifted(OrShifted(v, 1), 2), 4), 8), v, 16);
    GathersTwice(OrShifted(OrShifted(OrShifted(OrShifted(OrShifted(v, 1), 2), 4), 8), 16), v, 32);
  }

  lemma GathersItself(v: nat)
    ensures Gathers(v, v, 1)
  {
    hide Bit;
  }

  lemma LengthWithin64(v: nat)
    requires v < TWO64
    ensures BitLength(v) <= 64
  {
    hide Pow2;
    Pow2Of64();
    if BitLength(v) > 64 { Pow2Monotone(64, BitLength(v) - 1); }
  }

  lemma ReachedBelowTop(v: nat, i: nat)
    requires BitLength(v) <= 64
    ensures Reached(v, i, 64) <==> i < BitLength(v)
  {
    hide Bit, Pow2;
    var n := BitLength(v);
    if i < n { TopBit(v); }
    forall j: nat | n <= j ensures !Bit(v, j) { BitBeyond(v, n, j); }
  }

  lemma SolidAboveHalf(v: nat)
    requires TWO64 / 2 <= v < TWO64
    ensures BitLength(v) == 64
  {
    hide Pow2;
    LengthWithin64(v);
    Pow2Of64();
    if BitLength(v) < 64 { Pow2Monotone(BitLength(v), 63); }
  }

  lemma LengthRoundsUp(i: nat)
    requires 1 <= i <= TWO64 / 2
    ensures BitLength(i - 1) == CeilLog2(i) <= 63 && Pow2(CeilLog2(i)) <= TWO64 / 2
  {
    hide Pow2;
    Pow2Of64();
    CeilLog2Is(i, BitLength(i - 1));
    CeilLog2Monotone(i, TWO64 / 2);
    CeilLog2OfPow2(63);
    Pow2Monotone(CeilLog2(i), 63);
  }

  /** The least power of two that is not below i; a request that has none among the 64-bit words,
      or is zero, wraps to zero. */
  lemma NextPowerOfTwoIsLeast(i: nat)
    requires i < TWO64
    ensures NextPowerOfTwo(i) == if 1 <= i <= TWO64 / 2 then Pow2(CeilLog2(i)) else 0
  {
    hide Smear, Pow2, BitLength, CeilLog2;
    var v := if i == 0 then TWO64 - 1 else i - 1;
    assert (i + TWO64 - 1) % TWO64 == v;
    SmearIsSolid(v);
    if 1 <= i <= TWO64 / 2 {
      LengthRoundsUp(i);
    } else {
      Pow2Of64();
      SolidAboveHalf(v);
    }
  }

  /** The slot count next_size_over turns a request into. */
  function NextSizeOver(size: nat): nat {
    if NextPowerOfTwo(size) < 2 then 2 else NextPowerOfTwo(size)
  }

  lemma NextSizeOverIs(size: nat)
    requires 1 <= size <= TWO64 / 2
    ensures NextSizeOver(size) == Pow2(if CeilLog2(size) < 1 then 1 else CeilLog2(size))
  {
    hide NextPowerOfTwo;
    NextPowerOfTwoIsLeast(size);
    if CeilLog2(size) >= 1 { Pow2Monotone(1, CeilLog2(size)); }
    assert Pow2(0) == 1 && Pow2(1) == 2;
  }
}
