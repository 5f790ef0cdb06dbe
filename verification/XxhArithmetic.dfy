/** The 64-bit arithmetic of XXH3: the portable 64x64 to 128-bit multiply, and the stripe step
    and scramble lane by lane against their SSE2 forms. */
module XxhArithmetic {
  import opened PowersOfTwo

  type u32 = x: nat | x < TWO32
  type u64 = x: nat | x < TWO64

  function Low(x: u64): u32 { x % TWO32 }
  function High(x: u64): u32 { x / TWO32 }

  function AddWrap(x: u64, y: u64): u64 { (x + y) % TWO64 }

  lemma ProductBound(x: nat, y: nat, m: nat, n: nat)
    requires x <= m && y <= n
    ensures 0 <= x * y <= m * n
  {
    assert x * y <= m * y;
    assert m * y <= m * n;
  }

  function Mult32To64(x: u32, y: u32): u64 {
    ProductBound(x, y, TWO32 - 1, TWO32 - 1);
    x * y
  }

  datatype Hash128 = Hash128(low64: u64, high64: u64)

  /** XXH_mult64to128 without a 128-bit type. The sums are typed u64: none of them overflows. */
  method Mult64To128(lhs: u64, rhs: u64) returns (r: Hash128)
    ensures r.high64 * TWO64 + r.low64 == lhs * rhs
  {
    var loLo := Mult32To64(Low(lhs), Low(rhs));
    var hiLo := Mult32To64(High(lhs), Low(rhs));
    var loHi := Mult32To64(Low(lhs), High(rhs));
    var hiHi := Mult32To64(High(lhs), High(rhs));
    SumsFit(lhs, rhs);
    var cross: u64 := High(loLo) + Low(hiLo) + loHi;
    var upper: u64 := High(hiLo) + High(cross) + hiHi;
    var lower: u64 := cross * TWO32 % TWO64 + Low(loLo);
    GradeSchool(lhs, rhs);
    r := Hash128(lower, upper);
  }

  lemma SumsFit(lhs: u64, rhs: u64)
    ensures var loLo, hiLo := Low(lhs) * Low(rhs), High(lhs) * Low(rhs);
            var cross := loLo / TWO32 + hiLo % TWO32 + Low(lhs) * High(rhs);
            cross < TWO64 && hiLo / TWO32 + cross / TWO32 + High(lhs) * High(rhs) < TWO64
            && cross * TWO32 % TWO64 + loLo % TWO32 < TWO64
  {
    var m := TWO32 - 1;
    ProductBound(Low(lhs), Low(rhs), m, m);
    ProductBound(High(lhs), Low(rhs), m, m);
    ProductBound(Low(lhs), High(rhs), m, m);
    ProductBound(High(lhs), High(rhs), m, m);
    ShiftedHalf(Low(lhs) * Low(rhs) / TWO32 + High(lhs) * Low(rhs) % TWO32 + Low(lhs) * High(rhs));
  }

  lemma ShiftedHalf(x: nat)
    ensures x * TWO32 % TWO64 == x % TWO32 * TWO32
  {
    assert x * TWO32 == x / TWO32 * TWO64 + x % TWO32 * TWO32;
  }

  lemma GradeSchool(lhs: u64, rhs: u64)
    ensures var loLo, hiLo := Low(lhs) * Low(rhs), High(lhs) * Low(rhs);
            var cross := loLo / TWO32 + hiLo % TWO32 + Low(lhs) * High(rhs);
            (hiLo / TWO32 + cross / TWO32 + High(lhs) * High(rhs)) * TWO64 + (cross * TWO32 % TWO64 + loLo % TWO32)
                == lhs * rhs
  {
    var a, b, c, d := High(lhs), Low(lhs), High(rhs), Low(rhs);
    var cross := b * d / TWO32 + a * d % TWO32 + b * c;
    ShiftedHalf(cross);
    assert lhs == a * TWO32 + b && rhs == c * TWO32 + d;
    Distribute(a, b, c, d);
  }

  lemma Distribute(a: nat, b: nat, c: nat, d: nat)
    ensures (a * TWO32 + b) * (c * TWO32 + d) == a * c * TWO64 + (a * d + b * c) * TWO32 + b * d
  {
    assert (a * TWO32 + b) * (c * TWO32 + d) == a * TWO32 * (c * TWO32 + d) + b * (c * TWO32 + d);
    assert a * TWO32 * (c * TWO32 + d) == a * c * TWO64 + a * d * TWO32;
    assert b * (c * TWO32 + d) == b * c * TWO32 + b * d;
  }

  // ----- the stripe step

  const LANES := 8

  /** One stripe read as eight little-endian words, and the secret words beside it. The
      exclusive-or of a data word with its secret word is the same in both forms. */
  datatype Stripe = Stripe(data: seq<u64>, key: seq<u64>) {
    ghost predicate Valid() { |data| == LANES && |key| == LANES }
  }

  function Partner(lane: nat): nat { if lane % 2 == 0 then lane + 1 else lane - 1 }

  function Product(key: u64): u64 { Mult32To64(Low(key), High(key)) }

  /** The accumulator lane after the step: its own product and its neighbour's data are added. */
  function LaneAfter(acc: seq<u64>, s: Stripe, lane: nat): u64
    requires s.Valid() && |acc| == LANES && lane < LANES
  {
    AddWrap(AddWrap(acc[lane], s.data[Partner(lane)]), Product(s.key[lane]))
  }

  function Accumulated(acc: seq<u64>, s: Stripe): (r: seq<u64>)
    requires s.Valid() && |acc| == LANES
    ensures |r| == LANES
  {
    seq(LANES, lane requires 0 <= lane < LANES => LaneAfter(acc, s, lane))
  }

  lemma AddWrapOrder(a: u64, b: u64, c: u64)
    ensures AddWrap(AddWrap(a, b), c) == AddWrap(AddWrap(a, c), b)
  {
  }

  /** XXH3_accumulate_512_scalar: round i writes lane i and, before or after that lane's own
      round, its neighbour. */
  method AccumulateScalar(acc: array<u64>, s: Stripe)
    requires s.Valid() && acc.Length == LANES
    modifies acc
    ensures acc[..] == Accumulated(old(acc[..]), s)
  {
    hide AddWrap, Product;
    ghost var a := acc[..];
    for i := 0 to LANES
      invariant forall lane :: 0 <= lane < LANES ==> acc[lane] == LaneAfterRounds(a, s, lane, i)
    {
      acc[Partner(i)] := AddWrap(acc[Partner(i)], s.data[i]);
      acc[i] := AddWrap(acc[i], Product(s.key[i]));
      AddWrapOrder(a[Partner(i)], s.data[i], Product(s.key[Partner(i)]));
    }
  }

  /** A lane after the first i rounds. */
  ghost function LaneAfterRounds(acc: seq<u64>, s: Stripe, lane: nat, i: nat): u64
    requires s.Valid() && |acc| == LANES && lane < LANES
  {
    var fed := if Partner(lane) < i then AddWrap(acc[lane], s.data[Partner(lane)]) else acc[lane];
    if lane < i then AddWrap(fed, Product(s.key[lane])) else fed
  }

  // ----- SSE2

  /** A 128-bit register as four 32-bit words, lowest first. */
  datatype M128 = M128(d0: u32, d1: u32, d2: u32, d3: u32) {
    function Word(i: nat): u32
      requires i < 4
    {
      match i case 0 => d0 case 1 => d1 case 2 => d2 case _ => d3
    }

    function Lane(i: nat): u64
      requires i < 2
    {
      if i == 0 then d0 + d1 * TWO32 else d2 + d3 * TWO32
    }
  }

  function FromLanes(x: u64, y: u64): (r: M128)
    ensures r.Lane(0) == x && r.Lane(1) == y
  {
    M128(Low(x), High(x), Low(y), High(y))
  }

  /** _mm_shuffle_epi32 with the four selectors of _MM_SHUFFLE */
  function ShuffleEpi32(m: M128, z: nat, y: nat, x: nat, w: nat): M128
    requires z < 4 && y < 4 && x < 4 && w < 4
  {
    M128(m.Word(w), m.Word(x), m.Word(y), m.Word(z))
  }

  function MulEpu32(a: M128, b: M128): M128 {
    FromLanes(Mult32To64(a.d0, b.d0), Mult32To64(a.d2, b.d2))
  }

  function AddEpi64(a: M128, b: M128): M128 {
    FromLanes(AddWrap(a.Lane(0), b.Lane(0)), AddWrap(a.Lane(1), b.Lane(1)))
  }

  /** XXH3_accumulate_512_sse2: two lanes at a time, the data words swapped by a shuffle. */
  method AccumulateSse2(acc: array<u64>, s: Stripe)
    requires s.Valid() && acc.Length == LANES
    modifies acc
    ensures acc[..] == Accumulated(old(acc[..]), s)
  {
    ghost var a := acc[..];
    for i := 0 to LANES / 2
      invariant forall lane :: 0 <= lane < 2 * i ==> acc[lane] == LaneAfter(a, s, lane)
      invariant forall lane :: 2 * i <= lane < LANES ==> acc[lane] == a[lane]
    {
      var dataVec := FromLanes(s.data[2 * i], s.data[2 * i + 1]);
      var dataKey := FromLanes(s.key[2 * i], s.key[2 * i + 1]);
      var dataKeyLo := ShuffleEpi32(dataKey, 0, 3, 0, 1);
      var product := MulEpu32(dataKey, dataKeyLo);
      var dataSwap := ShuffleEpi32(dataVec, 1, 0, 3, 2);
      var sum := AddEpi64(FromLanes(acc[2 * i], acc[2 * i + 1]), dataSwap);
      var xacc := AddEpi64(product, sum);
      PairStep(a, s, i);
      acc[2 * i], acc[2 * i + 1] := xacc.Lane(0), xacc.Lane(1);
    }
  }

  lemma ShuffledProduct(x: u64, y: u64)
    ensures var key := FromLanes(x, y);
            MulEpu32(key, ShuffleEpi32(key, 0, 3, 0, 1)) == FromLanes(Product(x), Product(y))
  {
    hide Mult32To64, Low, High;
  }

  lemma ShuffledSwap(x: u64, y: u64)
    ensures ShuffleEpi32(FromLanes(x, y), 1, 0, 3, 2) == FromLanes(y, x)
  {
    hide Low, High;
  }

  lemma AddWrapSwap(p: u64, a: u64, d: u64)
    ensures AddWrap(p, AddWrap(a, d)) == AddWrap(AddWrap(a, d), p)
  {
  }

  lemma PairStep(acc: seq<u64>, s: Stripe, i: nat)
    requires s.Valid() && |acc| == LANES && i < LANES / 2
    ensures var dataKey := FromLanes(s.key[2 * i], s.key[2 * i + 1]);
            var product := MulEpu32(dataKey, ShuffleEpi32(dataKey, 0, 3, 0, 1));
            var swap := ShuffleEpi32(FromLanes(s.data[2 * i], s.data[2 * i + 1]), 1, 0, 3, 2);
            var xacc := AddEpi64(product, AddEpi64(FromLanes(acc[2 * i], acc[2 * i + 1]), swap));
            xacc.Lane(0) == LaneAfter(acc, s, 2 * i) && xacc.Lane(1) == LaneAfter(acc, s, 2 * i + 1)
  {
    hide Mult32To64, Low, High, AddWrap, M128.Lane, FromLanes, MulEpu32, ShuffleEpi32, Product;
    ShuffledProduct(s.key[2 * i], s.key[2 * i + 1]);
    ShuffledSwap(s.data[2 * i], s.data[2 * i + 1]);
    AddWrapSwap(Product(s.key[2 * i]), acc[2 * i], s.data[2 * i + 1]);
    AddWrapSwap(Product(s.key[2 * i + 1]), acc[2 * i + 1], s.data[2 * i]);
  }

  // ----- the scramble's multiplication

  const PRIME32_1: u32 := 0x9E3779B1

  /** acc64 *= XXH_PRIME32_1 */
  function TimesPrime(x: u64): u64 {
    ProductBound(x, PRIME32_1, x, PRIME32_1);
    x * PRIME32_1 % TWO64
  }

  /** _mm_slli_epi64 by 32 */
  function ShiftLeft32(x: u64): u64 { x * TWO32 % TWO64 }

  /** Multiplying the two halves apart, in the low words of two registers, and adding the upper
      product shifted gives the 64-bit product. */
  lemma SplitMultiplication(x: u64, y: u64)
    ensures var dataKey := FromLanes(x, y);
            var prime32 := M128(PRIME32_1, PRIME32_1, PRIME32_1, PRIME32_1);
            var prodLo := MulEpu32(dataKey, prime32);
            var prodHi := MulEpu32(ShuffleEpi32(dataKey, 0, 3, 0, 1), prime32);
            var xacc := AddEpi64(prodLo, FromLanes(ShiftLeft32(prodHi.Lane(0)), ShiftLeft32(prodHi.Lane(1))));
            xacc.Lane(0) == TimesPrime(x) && xacc.Lane(1) == TimesPrime(y)
  {
    SplitLane(x);
    SplitLane(y);
  }

  lemma SplitLane(x: u64)
    ensures AddWrap(Mult32To64(Low(x), PRIME32_1), ShiftLeft32(Mult32To64(High(x), PRIME32_1))) == TimesPrime(x)
  {
    var l, h := Low(x), High(x);
    assert x == h * TWO32 + l;
    assert x * PRIME32_1 == h * PRIME32_1 * TWO32 + l * PRIME32_1;
    WrapSum(l * PRIME32_1, h * PRIME32_1 * TWO32);
  }

  lemma WrapSum(a: nat, b: nat)
    ensures (a + b % TWO64) % TWO64 == (a + b) % TWO64
  {
  }
}
