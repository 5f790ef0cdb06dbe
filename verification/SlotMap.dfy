/** Where a 32-bit ticket lives in the queue's ring: modulo the size, then with the bits that
    name the cache line and the element within it exchanged. */
module SlotMap {
  import opened PowersOfTwo
  import opened Division
  import opened BitWords

  /** A ring of 2^log2Size slots whose index shuffle exchanges two fields of `bits` bits. */
  datatype Config = Config(log2Size: nat, bits: nat) {
    ghost predicate Valid() {
      log2Size <= 30 && 2 * bits <= log2Size
    }

    function Size(): (n: nat)
      ensures n > 0
    {
      Pow2(log2Size)
    }
  }

  /** What remap_index is for: the lowest field and the one above it change places. */
  function Remap(bits: nat, x: nat): nat {
    var above := Right(x, bits);
    Left(Left(Right(above, bits), bits) + Low(x, bits), bits) + Low(above, bits)
  }

  // ----- the exchange, as arithmetic

  function Join(b: nat, hi: nat, lo: nat): nat {
    hi * b + lo
  }

  function Exchange(b: nat, x: nat): nat
    requires b > 0
  {
    Join(b, Join(b, x / b / b, x % b), x / b % b)
  }

  lemma ExchangeTwice(b: nat, x: nat)
    requires b > 0
    ensures Exchange(b, Exchange(b, x)) == x
  {
    var hi, mid, lo := x / b / b, x / b % b, x % b;
    JoinSplits(b, Join(b, hi, lo), mid);
    JoinSplits(b, hi, lo);
    SplitJoins(b, x / b);
    SplitJoins(b, x);
    hide Join;
  }

  lemma JoinSplits(b: nat, hi: nat, lo: nat)
    requires lo < b
    ensures Join(b, hi, lo) / b == hi && Join(b, hi, lo) % b == lo
  {
    DivMod(b, hi, lo);
  }

  lemma SplitJoins(b: nat, x: nat)
    requires b > 0
    ensures Join(b, x / b, x % b) == x
  {
  }

  lemma JoinBelow(b: nat, hi: nat, lo: nat, m: nat)
    requires lo < b && hi < m
    ensures Join(b, hi, lo) < m * b
  {
    Scaled(b, hi + 1, m);
  }

  lemma ExchangeStaysInRange(b: nat, m: nat, x: nat)
    requires b > 0 && x < m * b * b
    ensures Exchange(b, x) < m * b * b
  {
    DivisionBelow(x, b, m * b);
    DivisionBelow(x / b, b, m);
    hide Join;
    JoinBelow(b, x / b / b, x % b, m);
    JoinBelow(b, Join(b, x / b / b, x % b), x / b % b, m * b);
  }

  lemma SizeFactors(c: Config)
    requires c.Valid()
    ensures c.Size() == Pow2(c.log2Size - 2 * c.bits) * Pow2(c.bits) * Pow2(c.bits)
  {
    Pow2Add(c.log2Size - 2 * c.bits, c.bits);
    Pow2Add(c.log2Size - c.bits, c.bits);
  }

  lemma RemapIsExchange(bits: nat, x: nat)
    ensures Remap(bits, x) == Exchange(Pow2(bits), x)
  {
    var above := Right(x, bits);
    RightIsQuotient(x, bits);
    RightIsQuotient(above, bits);
    LowIsRemainder(x, bits);
    LowIsRemainder(above, bits);
    LeftIsProduct(Right(above, bits), bits);
    LeftIsProduct(Left(Right(above, bits), bits) + Low(x, bits), bits);
    hide Left, Right, Low, Pow2;
  }

  /** On a ring large enough for the shuffle, remapping permutes the slots. */
  lemma RemapPermutes(c: Config, x: nat)
    requires c.Valid() && x < c.Size()
    ensures Remap(c.bits, x) < c.Size()
    ensures Remap(c.bits, Remap(c.bits, x)) == x
  {
    hide Exchange, Remap, Pow2;
    SizeFactors(c);
    ExchangeStaysInRange(Pow2(c.bits), Pow2(c.log2Size - 2 * c.bits), x);
    ExchangeTwice(Pow2(c.bits), x);
    RemapIsExchange(c.bits, x);
    RemapIsExchange(c.bits, Remap(c.bits, x));
  }

  // ----- remap_index, on 32-bit words

  /** The exclusive-ors of the code; the shift to the left wraps to 32 bits. */
  function RemapIndex(bits: nat, index: nat): nat {
    var mix := And(Xor(index, Right(index, bits)), Pow2(bits) - 1);
    Xor(Xor(index, mix), Left(mix, bits) % TWO32)
  }

  lemma BitOfMix(bits: nat, x: nat, i: nat)
    ensures Bit(And(Xor(x, Right(x, bits)), Pow2(bits) - 1), i) <==> i < bits && Bit(x, i) != Bit(x, i + bits)
  {
    hide *;
    BitOfAnd(Xor(x, Right(x, bits)), Pow2(bits) - 1, i);
    BitOfXor(x, Right(x, bits), i);
    BitOfRight(x, bits, i);
    BitOfMask(bits, i);
  }

  /** Bit i of a word whose two lowest fields have changed places. */
  ghost function ExchangedBit(bits: nat, x: nat, i: nat): bool {
    if i < bits then Bit(x, i + bits) else if i < 2 * bits then Bit(x, i - bits) else Bit(x, i)
  }

  lemma BitOfRemapIndex(bits: nat, x: nat, i: nat)
    requires 2 * bits <= 32
    ensures Bit(RemapIndex(bits, x), i) == ExchangedBit(bits, x, i)
  {
    hide Bit, And, Xor, Left, Right, Pow2;
    Pow2Of32();
    var mix := And(Xor(x, Right(x, bits)), Pow2(bits) - 1);
    BitOfXor(Xor(x, mix), Left(mix, bits) % TWO32, i);
    BitOfXor(x, mix, i);
    BitOfMix(bits, x, i);
    BitOfRemainder(Left(mix, bits), 32, i);
    BitOfLeft(mix, bits, i);
    if i >= bits { BitOfMix(bits, x, i - bits); }
  }

  lemma BitOfFields(bits: nat, hi: nat, x: nat, i: nat)
    ensures Bit(Join(Pow2(bits), hi, x % Pow2(bits)), i) == if i < bits then Bit(x, i) else Bit(hi, i - bits)
  {
    hide Bit, Pow2;
    BitOfJoin(hi, x % Pow2(bits), bits, i);
    BitOfRemainder(x, bits, i);
  }

  lemma RemapByShifts(bits: nat, x: nat)
    ensures var b, y := Pow2(bits), Right(x, bits);
            Remap(bits, x) == Join(b, Join(b, Right(y, bits), x % b), y % b)
  {
    hide Left, Right, Low, Pow2;
    var y := Right(x, bits);
    LowIsRemainder(x, bits);
    LowIsRemainder(y, bits);
    LeftIsProduct(Right(y, bits), bits);
    LeftIsProduct(Left(Right(y, bits), bits) + Low(x, bits), bits);
  }

  lemma BitOfRemap(bits: nat, x: nat, i: nat)
    ensures Bit(Remap(bits, x), i) == ExchangedBit(bits, x, i)
  {
    hide Bit, Pow2, Right, Join, Remap;
    var b, y := Pow2(bits), Right(x, bits);
    RemapByShifts(bits, x);
    BitOfFields(bits, Join(b, Right(y, bits), x % b), y, i);
    BitOfRight(x, bits, i);
    if i >= bits {
      BitOfFields(bits, Right(y, bits), x, i - bits);
      if i >= 2 * bits {
        BitOfRight(y, bits, i - 2 * bits);
        BitOfRight(x, bits, i - bits);
      }
    }
  }

  /** The exclusive-ors exchange the two lowest fields of any width and leave the rest alone. */
  lemma RemapIndexIsRemap(bits: nat, x: nat)
    requires 2 * bits <= 32
    ensures RemapIndex(bits, x) == Remap(bits, x)
  {
    hide *;
    forall i: nat ensures Bit(RemapIndex(bits, x), i) == Bit(Remap(bits, x), i) {
      BitOfRemapIndex(bits, x, i);
      BitOfRemap(bits, x, i);
    }
    SameBits(RemapIndex(bits, x), Remap(bits, x));
  }

  // ----- tickets

  /** The 32-bit word that holds a ticket. */
  function Word(ticket: nat): (w: nat)
    ensures w < TWO32
  {
    ticket % TWO32
  }

  /** The slot do_push and do_pop take for a ticket word: its remainder by the size, remapped. */
  function Slot(c: Config, ticket: nat): nat {
    Remap(c.bits, Low(Word(ticket), c.log2Size))
  }

  /** It is the one the exclusive-ors of the code compute. */
  lemma SlotAsCoded(c: Config, ticket: nat)
    requires c.Valid()
    ensures Slot(c, ticket) == RemapIndex(c.bits, Word(ticket) % c.Size())
  {
    hide RemapIndex, Remap, Low, Pow2;
    LowIsRemainder(Word(ticket), c.log2Size);
    RemapIndexIsRemap(c.bits, Word(ticket) % c.Size());
  }

  /** The ring size divides 2^32, so wrapping a ticket to a word does not change its slot. */
  lemma WrapKeepsSlot(c: Config, ticket: nat)
    requires c.Valid()
    ensures Word(ticket) % c.Size() == ticket % c.Size()
    ensures Slot(c, ticket) == Remap(c.bits, ticket % c.Size()) < c.Size()
  {
    hide Remap, Low, Pow2;
    Pow2Of32();
    Pow2Add(32 - c.log2Size, c.log2Size);
    NestedModulo(ticket, Pow2(32 - c.log2Size), c.Size());
    LowIsRemainder(Word(ticket), c.log2Size);
    RemapPermutes(c, ticket % c.Size());
  }

  /** Two tickets share a slot exactly when they differ by a whole number of laps. */
  lemma SameSlot(c: Config, a: nat, b: nat)
    requires c.Valid()
    ensures Slot(c, a) == Slot(c, b) <==> a % c.Size() == b % c.Size()
  {
    hide Remap;
    WrapKeepsSlot(c, a);
    WrapKeepsSlot(c, b);
    RemapPermutes(c, a % c.Size());
    RemapPermutes(c, b % c.Size());
  }

  /** How many of the first n tickets map to slot i. */
  ghost function Count(c: Config, n: nat, i: nat): nat {
    if n == 0 then 0 else Count(c, n - 1, i) + (if Slot(c, n - 1) == i then 1 else 0)
  }

  /** The tickets below n reach the slot of r once a lap, and once more in the lap under way
      if it is past r. */
  lemma {:induction false} CountInClosedForm(c: Config, n: nat, r: nat)
    requires c.Valid() && r < c.Size()
    ensures Count(c, n, Slot(c, r)) == n / c.Size() + (if n % c.Size() > r then 1 else 0)
  {
    hide Slot, Pow2;
    if n == 0 {
      DivMod(c.Size(), 0, 0);
    } else {
      CountInClosedForm(c, n - 1, r);
      QuotientOfNext(c.Size(), n - 1);
      SameSlot(c, n - 1, r);
      DivMod(c.Size(), 0, r);
    }
  }

  lemma SlotOfResidue(c: Config, t: nat)
    requires c.Valid()
    ensures Slot(c, t % c.Size()) == Slot(c, t)
  {
    hide Slot, Pow2;
    DivMod(c.Size(), 0, t % c.Size());
    SameSlot(c, t % c.Size(), t);
  }

  /** A ticket's lap is the number of earlier tickets on its slot. */
  lemma CountOfTicket(c: Config, t: nat)
    requires c.Valid()
    ensures Count(c, t, Slot(c, t)) == t / c.Size()
  {
    CountInClosedForm(c, t, t % c.Size());
    SlotOfResidue(c, t);
  }

  lemma {:induction false} CountMonotone(c: Config, m: nat, n: nat, i: nat)
    requires m <= n
    ensures Count(c, m, i) <= Count(c, n, i)
    decreases n
  {
    if m < n { CountMonotone(c, m, n - 1, i); }
  }

  lemma FirstTicketOf(c: Config, i: nat) returns (r: nat)
    requires c.Valid() && i < c.Size()
    ensures r < c.Size() && Slot(c, r) == i
  {
    hide Slot, Remap, Pow2;
    r := Remap(c.bits, i);
    RemapPermutes(c, i);
    DivMod(c.Size(), 0, r);
    WrapKeepsSlot(c, r);
  }

  /** No slot is reached twice within one lap. */
  lemma CountWithinALap(c: Config, m: nat, n: nat, i: nat)
    requires c.Valid() && m <= n <= m + c.Size() && i < c.Size()
    ensures Count(c, m, i) <= Count(c, n, i) <= Count(c, m, i) + 1
  {
    hide *;
    var r := FirstTicketOf(c, i);
    CountInClosedForm(c, m, r);
    CountInClosedForm(c, m + c.Size(), r);
    OneLapOn(c.Size(), m);
    CountMonotone(c, m, n, i);
    CountMonotone(c, n, m + c.Size(), i);
  }

  /** Two tickets of one slot in the same lap are one. */
  lemma SameLap(c: Config, a: nat, b: nat)
    requires c.Valid() && Slot(c, a) == Slot(c, b)
    ensures a / c.Size() == b / c.Size() ==> a == b
    ensures a != b ==> a - b >= c.Size() || b - a >= c.Size()
  {
    SameSlot(c, a, b);
    SameResidue(c.Size(), a, b);
  }
}
