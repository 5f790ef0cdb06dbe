/** Machine words as natural numbers, bit by bit. */
module BitWords {
  import opened PowersOfTwo
  import opened Division

  function Bit(x: nat, i: nat): bool {
    if i == 0 then x % 2 == 1 else Bit(x / 2, i - 1)
  }

  function And(a: nat, b: nat): nat {
    if a == 0 then 0 else 2 * And(a / 2, b / 2) + (if a % 2 == 1 && b % 2 == 1 then 1 else 0)
  }

  function Or(a: nat, b: nat): nat {
    if a == 0 then b else 2 * Or(a / 2, b / 2) + (if a % 2 == 1 || b % 2 == 1 then 1 else 0)
  }

  function Xor(a: nat, b: nat): nat {
    if a == 0 then b else 2 * Xor(a / 2, b / 2) + (if a % 2 != b % 2 then 1 else 0)
  }

  /** x shifted right by k bits. */
  function Right(x: nat, k: nat): nat {
    if k == 0 then x else Right(x / 2, k - 1)
  }

  function Left(x: nat, k: nat): nat {
    if k == 0 then x else 2 * Left(x, k - 1)
  }

  /** The k lowest bits of x. */
  function Low(x: nat, k: nat): nat {
    if k == 0 then 0 else 2 * Low(x / 2, k - 1) + x % 2
  }

  // ----- the bits of each operation

  lemma {:induction false} BitOfZero(i: nat)
    ensures !Bit(0, i)
  {
    if i > 0 { BitOfZero(i - 1); }
  }

  lemma {:induction false} BitOfAnd(a: nat, b: nat, i: nat)
    ensures Bit(And(a, b), i) <==> Bit(a, i) && Bit(b, i)
  {
    if a == 0 {
      BitOfZero(i);
    } else if i > 0 {
      BitOfAnd(a / 2, b / 2, i - 1);
    }
  }

  lemma {:induction false} BitOfOr(a: nat, b: nat, i: nat)
    ensures Bit(Or(a, b), i) <==> Bit(a, i) || Bit(b, i)
  {
    if a == 0 {
      BitOfZero(i);
    } else if i > 0 {
      BitOfOr(a / 2, b / 2, i - 1);
    }
  }

  lemma {:induction false} BitOfXor(a: nat, b: nat, i: nat)
    ensures Bit(Xor(a, b), i) <==> (Bit(a, i) != Bit(b, i))
  {
    if a == 0 {
      BitOfZero(i);
    } else if i > 0 {
      BitOfXor(a / 2, b / 2, i - 1);
    }
  }

  lemma {:induction false} BitOfRight(x: nat, k: nat, i: nat)
    ensures Bit(Right(x, k), i) == Bit(x, i + k)
    decreases k
  {
    if k > 0 { BitOfRight(x / 2, k - 1, i); }
  }

  lemma {:induction false} BitOfLeft(x: nat, k: nat, i: nat)
    ensures Bit(Left(x, k), i) <==> i >= k && Bit(x, i - k)
    decreases k
  {
    if k > 0 {
      assert Left(x, k) / 2 == Left(x, k - 1);
      if i > 0 { BitOfLeft(x, k - 1, i - 1); }
    }
  }

  /** lo fills the lowest n bits, hi stands above it. */
  lemma {:induction false} BitOfJoin(hi: nat, lo: nat, n: nat, i: nat)
    requires lo < Pow2(n)
    ensures Bit(hi * Pow2(n) + lo, i) == if i < n then Bit(lo, i) else Bit(hi, i - n)
    decreases n
  {
    if n > 0 {
      var p := Pow2(n - 1);
      HalfOfJoin(hi, lo, p);
      if i > 0 { BitOfJoin(hi, lo / 2, n - 1, i - 1); }
    }
  }

  lemma HalfOfJoin(hi: nat, lo: nat, p: nat)
    requires lo < 2 * p
    ensures (hi * (2 * p) + lo) / 2 == hi * p + lo / 2 && (hi * (2 * p) + lo) % 2 == lo % 2
    ensures lo / 2 < p
  {
    assert hi * (2 * p) == 2 * (hi * p);
  }

  lemma BitOfRemainder(x: nat, n: nat, i: nat)
    ensures Bit(x % Pow2(n), i) <==> i < n && Bit(x, i)
  {
    hide *;
    var q, r := SplitAt(x, Pow2(n));
    BitOfJoin(q, r, n, i);
    if i >= n { BitBeyond(r, n, i); }
  }

  lemma SplitAt(x: nat, p: nat) returns (q: nat, r: nat)
    requires p > 0
    ensures x == q * p + r && r < p && r == x % p
  {
    q, r := x / p, x % p;
  }

  lemma {:induction false} BitBeyond(x: nat, n: nat, i: nat)
    requires x < Pow2(n) && n <= i
    ensures !Bit(x, i)
  {
    if n == 0 {
      BitOfZero(i);
    } else {
      BitBeyond(x / 2, n - 1, i - 1);
    }
  }

  lemma {:induction false} BitOfMask(n: nat, i: nat)
    ensures Bit(Pow2(n) - 1, i) <==> i < n
  {
    if n == 0 {
      BitOfZero(i);
    } else {
      assert (Pow2(n) - 1) / 2 == Pow2(n - 1) - 1;
      if i > 0 { BitOfMask(n - 1, i - 1); }
    }
  }

  /** Words with the same bits are the same. */
  lemma {:induction false} SameBits(a: nat, b: nat)
    requires forall i: nat :: Bit(a, i) == Bit(b, i)
    ensures a == b
    decreases a + b
  {
    if a + b > 0 {
      assert Bit(a, 0) == Bit(b, 0);
      forall i: nat ensures Bit(a / 2, i) == Bit(b / 2, i) {
        assert Bit(a, i + 1) == Bit(b, i + 1);
      }
      SameBits(a / 2, b / 2);
    }
  }

  // ----- shifts as arithmetic

  lemma {:induction false} RightIsQuotient(x: nat, k: nat)
    ensures Right(x, k) == Quotient(x, Pow2(k))
    decreases k
  {
    if k > 0 {
      RightIsQuotient(x / 2, k - 1);
      hide Quotient, Right;
      Halves(x, Pow2(k - 1));
    }
  }

  lemma {:induction false} LeftIsProduct(x: nat, k: nat)
    ensures Left(x, k) == x * Pow2(k)
  {
    if k > 0 { LeftIsProduct(x, k - 1); }
  }

  lemma {:induction false} LowIsRemainder(x: nat, k: nat)
    ensures Low(x, k) == x % Pow2(k)
    decreases k
  {
    if k > 0 {
      LowIsRemainder(x / 2, k - 1);
      hide Low;
      Halves(x, Pow2(k - 1));
    }
  }

  lemma Halves(x: nat, p: nat)
    requires p > 0
    ensures Quotient(x, 2 * p) == Quotient(x / 2, p) && x % (2 * p) == 2 * (x / 2 % p) + x % 2
  {
    var q, r := x / 2 / p, x / 2 % p;
    assert x / 2 == q * p + r;
    assert x == q * (2 * p) + (2 * r + x % 2);
    DivMod(2 * p, q, 2 * r + x % 2);
  }

  // ----- the number of bits of a word

  function BitLength(x: nat): (n: nat)
    ensures x < Pow2(n)
    ensures x > 0 ==> n > 0 && Pow2(n - 1) <= x
  {
    if x == 0 then 0 else BitLength(x / 2) + 1
  }

  lemma {:induction false} TopBit(x: nat)
    requires x > 0
    ensures BitLength(x) > 0 && Bit(x, BitLength(x) - 1)
  {
    if x > 1 { TopBit(x / 2); }
  }
}
