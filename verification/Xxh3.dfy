/** XXH3's long-input hash: the one-shot loop over blocks, and the streaming state that buffers
    256 bytes, both against one definition of the accumulator after n stripes. */
module Xxh3 {
  import opened Basics
  import opened Division

  const STRIPE_LEN := 64
  const SECRET_CONSUME_RATE := 8
  const SECRET_SIZE_MIN := 136
  const SECRET_LASTACC_START := 7
  const INTERNALBUFFER_SIZE := 256
  const INTERNALBUFFER_STRIPES := 4
  const MIDSIZE_MAX := 240

  /** Where a run of stripes equals a run of the input, so do its parts. */
  lemma SplitStripes(data: seq<byte>, input: seq<byte>, m: nat, n: nat, k: nat)
    requires k <= n && STRIPE_LEN * n <= |data| && STRIPE_LEN * (m + n) <= |input|
    requires data[..STRIPE_LEN * n] == input[STRIPE_LEN * m..STRIPE_LEN * (m + n)]
    ensures data[..STRIPE_LEN * k] == input[STRIPE_LEN * m..STRIPE_LEN * (m + k)]
    ensures data[STRIPE_LEN * k..STRIPE_LEN * n] == input[STRIPE_LEN * (m + k)..STRIPE_LEN * (m + n)]
  {
    var a, b := data[..STRIPE_LEN * n], input[STRIPE_LEN * m..STRIPE_LEN * (m + n)];
    assert data[..STRIPE_LEN * k] == a[..STRIPE_LEN * k] && data[STRIPE_LEN * k..STRIPE_LEN * n] == a[STRIPE_LEN * k..];
    assert input[STRIPE_LEN * m..STRIPE_LEN * (m + k)] == b[..STRIPE_LEN * k];
    assert input[STRIPE_LEN * (m + k)..STRIPE_LEN * (m + n)] == b[STRIPE_LEN * k..];
  }

  /** The functions the loops are handed: the stripe step and the scramble, the final merge of
      the accumulators with the total length, and the hash of inputs of at most 240 bytes. */
  datatype Kernel<!A, !H> = Kernel(
    secret: seq<byte>,
    init: A,
    accumulate512: (A, seq<byte>, seq<byte>) -> A,
    scramble: (A, seq<byte>) -> A,
    merge: (A, nat) -> H,
    short: seq<byte> -> H)
  {
    ghost predicate Valid() {
      |secret| >= SECRET_SIZE_MIN
    }

    function SecretLimit(): nat
      requires Valid()
    {
      |secret| - STRIPE_LEN
    }

    function StripesPerBlock(): (n: nat)
      requires Valid()
      ensures n >= 9 && SECRET_CONSUME_RATE * n <= SecretLimit()
    {
      SecretLimit() / SECRET_CONSUME_RATE
    }

    /** The stripe step with the secret read at an offset. */
    function StepAt(acc: A, stripe: seq<byte>, offset: nat): A
      requires offset + STRIPE_LEN <= |secret|
    {
      accumulate512(acc, stripe, secret[offset..offset + STRIPE_LEN])
    }

    function ScrambleStep(acc: A): A
      requires Valid()
    {
      scramble(acc, secret[SecretLimit()..])
    }

    // ----- the definition both algorithms meet

    /** The accumulator after n stripes: stripe k of a block takes the secret at 8k, and the
        accumulator is scrambled as soon as a block is complete. */
    function Consumed(input: seq<byte>, n: nat): A
      requires Valid() && STRIPE_LEN * n <= |input|
      decreases n, 1
    {
      if n == 0 then init
      else if n % StripesPerBlock() == 0 then ScrambleStep(BeforeScramble(input, n))
      else BeforeScramble(input, n)
    }

    function BeforeScramble(input: seq<byte>, n: nat): A
      requires Valid() && 0 < n && STRIPE_LEN * n <= |input|
      decreases n, 0
    {
      var k := (n - 1) % StripesPerBlock();
      StepAt(Consumed(input, n - 1), input[STRIPE_LEN * (n - 1)..STRIPE_LEN * n], SECRET_CONSUME_RATE * k)
    }

    /** All stripes that leave at least one byte over, and then the last 64 bytes once more with
        a secret of their own. */
    function LongAccumulator(input: seq<byte>): A
      requires Valid() && |input| > STRIPE_LEN
    {
      StepAt(Consumed(input, (|input| - 1) / STRIPE_LEN), input[|input| - STRIPE_LEN..],
             SecretLimit() - SECRET_LASTACC_START)
    }

    function Hash(input: seq<byte>): H
      requires Valid()
    {
      if |input| <= MIDSIZE_MAX then short(input) else merge(LongAccumulator(input), |input|)
    }

    // ----- facts about it

    lemma NothingConsumed(input: seq<byte>)
      requires Valid()
      ensures Consumed(input, 0) == init
    {
    }

    lemma LongAccumulatorIs(input: seq<byte>, acc: A)
      requires Valid() && |input| > STRIPE_LEN && acc == Consumed(input, (|input| - 1) / STRIPE_LEN)
      ensures LongAccumulator(input)
          == StepAt(acc, input[|input| - STRIPE_LEN..], |secret| - STRIPE_LEN - SECRET_LASTACC_START)
    {
    }

    lemma {:induction false} ConsumedOfPrefix(input: seq<byte>, more: seq<byte>, n: nat)
      requires Valid() && STRIPE_LEN * n <= |input|
      ensures STRIPE_LEN * n <= |input + more| && Consumed(input + more, n) == Consumed(input, n)
    {
      if n > 0 {
        ConsumedOfPrefix(input, more, n - 1);
        assert (input + more)[STRIPE_LEN * (n - 1)..STRIPE_LEN * n] == input[STRIPE_LEN * (n - 1)..STRIPE_LEN * n];
      }
    }

    /** The n-fold stripe step of f_acc. */
    function Accumulated(acc: A, data: seq<byte>, offset: nat, n: nat): A
      requires STRIPE_LEN * n <= |data|
      requires n > 0 ==> offset + SECRET_CONSUME_RATE * (n - 1) + STRIPE_LEN <= |secret|
    {
      if n == 0 then acc
      else StepAt(Accumulated(acc, data, offset, n - 1), data[STRIPE_LEN * (n - 1)..STRIPE_LEN * n],
                  offset + SECRET_CONSUME_RATE * (n - 1))
    }

    lemma BlockPosition(m: nat, n: nat)
      requires Valid() && m % StripesPerBlock() + n <= StripesPerBlock()
      ensures n > 0 ==> (m + n - 1) % StripesPerBlock() == m % StripesPerBlock() + n - 1
      ensures (m + n) % StripesPerBlock() == if m % StripesPerBlock() + n == StripesPerBlock() then 0
          else m % StripesPerBlock() + n
    {
      WithinLap(StripesPerBlock(), m, n);
    }

    /** f_acc from within a block, not past its end, goes n stripes on. */
    lemma {:induction false} AccumulatedIsConsumed(input: seq<byte>, m: nat, data: seq<byte>, n: nat)
      requires Valid() && STRIPE_LEN * (m + n) <= |input| && STRIPE_LEN * n <= |data|
      requires m % StripesPerBlock() + n <= StripesPerBlock()
      requires data[..STRIPE_LEN * n] == input[STRIPE_LEN * m..STRIPE_LEN * (m + n)]
      ensures var a := Accumulated(Consumed(input, m), data, SECRET_CONSUME_RATE * (m % StripesPerBlock()), n);
              a == if n == 0 then Consumed(input, m) else BeforeScramble(input, m + n)
    {
      hide StepAt, ScrambleStep, StripesPerBlock;
      if n > 0 {
        SplitStripes(data, input, m, n, n - 1);
        AccumulatedIsConsumed(input, m, data, n - 1);
        BlockPosition(m, n);
        BlockPosition(m, n - 1);
      }
    }

    lemma InBlock(input: seq<byte>, m: nat, data: seq<byte>, n: nat)
      requires Valid() && STRIPE_LEN * (m + n) <= |input| && STRIPE_LEN * n <= |data|
      requires m % StripesPerBlock() + n < StripesPerBlock()
      requires data[..STRIPE_LEN * n] == input[STRIPE_LEN * m..STRIPE_LEN * (m + n)]
      ensures Accumulated(Consumed(input, m), data, SECRET_CONSUME_RATE * (m % StripesPerBlock()), n)
          == Consumed(input, m + n)
      ensures (m + n) % StripesPerBlock() == m % StripesPerBlock() + n
    {
      AccumulatedIsConsumed(input, m, data, n);
      BlockPosition(m, n);
    }

    lemma ToBlockEnd(input: seq<byte>, m: nat, data: seq<byte>, n: nat)
      requires Valid() && STRIPE_LEN * (m + n) <= |input| && STRIPE_LEN * n <= |data|
      requires m % StripesPerBlock() + n == StripesPerBlock()
      requires data[..STRIPE_LEN * n] == input[STRIPE_LEN * m..STRIPE_LEN * (m + n)]
      ensures ScrambleStep(Accumulated(Consumed(input, m), data, SECRET_CONSUME_RATE * (m % StripesPerBlock()), n))
          == Consumed(input, m + n)
      ensures (m + n) % StripesPerBlock() == 0
    {
      AccumulatedIsConsumed(input, m, data, n);
      BlockPosition(m, n);
    }
  }

  /** f_acc */
  method Accumulate<A, H>(k: Kernel<A, H>, acc: A, data: seq<byte>, offset: nat, nbStripes: nat) returns (a: A)
    requires STRIPE_LEN * nbStripes <= |data|
    requires nbStripes > 0 ==> offset + SECRET_CONSUME_RATE * (nbStripes - 1) + STRIPE_LEN <= |k.secret|
    ensures a == k.Accumulated(acc, data, offset, nbStripes)
  {
    a := acc;
    for n := 0 to nbStripes
      invariant a == k.Accumulated(acc, data, offset, n)
    {
      a := k.StepAt(a, data[STRIPE_LEN * n..STRIPE_LEN * (n + 1)], offset + SECRET_CONSUME_RATE * n);
    }
  }

  /** The one-shot loop: whole blocks, the stripes of the last partial block, the last 64 bytes. */
  method HashLongInternalLoop<A, H>(k: Kernel<A, H>, input: seq<byte>) returns (acc: A)
    requires k.Valid() && |input| > STRIPE_LEN
    ensures acc == k.LongAccumulator(input)
  {
    hide Kernel.Consumed, Kernel.Accumulated, Kernel.ScrambleStep, Kernel.StepAt, Kernel.StripesPerBlock, Times,
         Quotient;
    var nbStripesPerBlock := k.StripesPerBlock();
    var blockLen := STRIPE_LEN * nbStripesPerBlock;
    var nbBlocks := Quotient(|input| - 1, blockLen);
    acc := k.init;
    ghost var m := 0;
    NoBlocks(nbStripesPerBlock);
    assert k.Consumed(input, 0) == k.init by { k.NothingConsumed(input); }
    for n := 0 to nbBlocks
      invariant m == Times(n, nbStripesPerBlock) && Times(n, blockLen) == STRIPE_LEN * m <= |input|
      invariant acc == k.Consumed(input, m)
    {
      WholeBlock(nbStripesPerBlock, n, |input|);
      var block := input[Times(n, blockLen)..];
      acc := Accumulate(k, acc, block, 0, nbStripesPerBlock);
      k.ToBlockEnd(input, m, block, nbStripesPerBlock);
      acc := k.ScrambleStep(acc);
      m := m + nbStripesPerBlock;
    }
    LastBlock(nbStripesPerBlock, |input| - 1);
    var nbStripes := ((|input| - 1) - Times(nbBlocks, blockLen)) / STRIPE_LEN;
    var block := input[Times(nbBlocks, blockLen)..];
    acc := Accumulate(k, acc, block, 0, nbStripes);
    k.InBlock(input, m, block, nbStripes);
    k.LongAccumulatorIs(input, acc);
    acc := k.StepAt(acc, input[|input| - STRIPE_LEN..], |k.secret| - STRIPE_LEN - SECRET_LASTACC_START);
  }

  function Times(n: nat, b: nat): nat { n * b }

  lemma NoBlocks(perBlock: nat)
    requires perBlock > 0
    ensures Times(0, perBlock) == 0 && Times(0, STRIPE_LEN * perBlock) == 0
  {
  }

  lemma WholeBlock(perBlock: nat, n: nat, len: nat)
    requires perBlock > 0 && len > 0 && n < Quotient(len - 1, STRIPE_LEN * perBlock)
    ensures var m := Times(n, perBlock);
            m % perBlock == 0 && Times(n, STRIPE_LEN * perBlock) == STRIPE_LEN * m
                && STRIPE_LEN * (m + perBlock) <= len - 1
            && Times(n + 1, perBlock) == m + perBlock
                && Times(n + 1, STRIPE_LEN * perBlock) == STRIPE_LEN * (m + perBlock)
  {
    var blockLen := STRIPE_LEN * perBlock;
    DivMod(perBlock, n, 0);
    assert blockLen * ((len - 1) / blockLen) <= len - 1;
    Scaled(blockLen, n + 1, (len - 1) / blockLen);
    StripesOfBlocks(n, perBlock);
    StripesOfBlocks(n + 1, perBlock);
  }

  lemma StripesOfBlocks(n: nat, perBlock: nat)
    ensures Times(n, STRIPE_LEN * perBlock) == STRIPE_LEN * Times(n, perBlock)
    ensures Times(n + 1, perBlock) == Times(n, perBlock) + perBlock
  {
  }

  /** The stripes before the last partial block and those in it are all the stripes there are. */
  lemma LastBlock(perBlock: nat, last: nat)
    requires perBlock > 0
    ensures var blocks := Quotient(last, STRIPE_LEN * perBlock);
            Times(blocks, STRIPE_LEN * perBlock) <= last &&
            var n := (last - Times(blocks, STRIPE_LEN * perBlock)) / STRIPE_LEN;
            n < perBlock && Times(blocks, perBlock) + n == last / STRIPE_LEN && Times(blocks, perBlock) % perBlock == 0
  {
    var blockLen := STRIPE_LEN * perBlock;
    var blocks, rest := last / blockLen, last % blockLen;
    DivMod(perBlock, blocks, 0);
    StripesOfBlocks(blocks, perBlock);
    assert last == Times(blocks, blockLen) + rest;
  }

  /** One-shot XXH3_64bits */
  method Xxh3OneShot<A, H>(k: Kernel<A, H>, input: seq<byte>) returns (h: H)
    requires k.Valid()
    ensures h == k.Hash(input)
  {
    if |input| <= MIDSIZE_MAX {
      h := k.short(input);
    } else {
      var acc := HashLongInternalLoop(k, input);
      h := k.merge(acc, |input|);
    }
  }

  /** How many stripes come before the last one, which may overlap them. */
  function StripesBefore(len: nat): nat
    requires len > 0
  {
    (len - 1) / STRIPE_LEN
  }

  /** Consumes stripes m .. m + nbStripes of the stream, across at most one block end. */
  method ConsumeStripes<A, H>(k: Kernel<A, H>, acc: A, nbStripesSoFar: nat, data: seq<byte>, nbStripes: nat,
                              ghost input: seq<byte>, ghost m: nat)
    returns (acc': A, soFar': nat)
    requires k.Valid() && nbStripes <= k.StripesPerBlock() && nbStripesSoFar == m % k.StripesPerBlock()
    requires STRIPE_LEN * nbStripes <= |data| && STRIPE_LEN * (m + nbStripes) <= |input|
    requires data[..STRIPE_LEN * nbStripes] == input[STRIPE_LEN * m..STRIPE_LEN * (m + nbStripes)]
    requires acc == k.Consumed(input, m)
    ensures acc' == k.Consumed(input, m + nbStripes) && soFar' == (m + nbStripes) % k.StripesPerBlock()
  {
    hide Kernel.Consumed, Kernel.Accumulated, Kernel.ScrambleStep, Kernel.StripesPerBlock;
    if k.StripesPerBlock() - nbStripesSoFar <= nbStripes {
      var toEnd := k.StripesPerBlock() - nbStripesSoFar;
      var after := nbStripes - toEnd;
      SplitStripes(data, input, m, nbStripes, toEnd);
      acc' := Accumulate(k, acc, data, nbStripesSoFar * SECRET_CONSUME_RATE, toEnd);
      k.ToBlockEnd(input, m, data, toEnd);
      acc' := k.ScrambleStep(acc');
      var rest := data[STRIPE_LEN * toEnd..];
      assert rest[..STRIPE_LEN * after] == data[STRIPE_LEN * toEnd..STRIPE_LEN * nbStripes];
      acc' := Accumulate(k, acc', rest, 0, after);
      k.InBlock(input, m + toEnd, rest, after);
      soFar' := after;
    } else {
      acc' := Accumulate(k, acc, data, nbStripesSoFar * SECRET_CONSUME_RATE, nbStripes);
      k.InBlock(input, m, data, nbStripes);
      soFar' := nbStripesSoFar + nbStripes;
    }
  }

  /** What is left of the stream after m stripes is rest. */
  ghost predicate Remaining(whole: seq<byte>, m: nat, rest: seq<byte>) {
    STRIPE_LEN * m <= |whole| && rest == whole[STRIPE_LEN * m..]
  }

  lemma RemainingAfter(whole: seq<byte>, m: nat, rest: seq<byte>, n: nat)
    requires Remaining(whole, m, rest) && STRIPE_LEN * n <= |rest|
    ensures Remaining(whole, m + n, rest[STRIPE_LEN * n..])
    ensures rest[..STRIPE_LEN * n] == whole[STRIPE_LEN * m..STRIPE_LEN * (m + n)]
  {
  }

  /** Whole blocks from a block start, as long as nbStripes stripes allow. */
  method ConsumeWholeBlocks<A, H>(k: Kernel<A, H>, acc: A, input: seq<byte>, nbStripes: nat, ghost whole: seq<byte>,
                                  ghost m: nat)
    returns (acc': A, rest: seq<byte>, left: nat, ghost m': nat)
    requires k.Valid() && Remaining(whole, m, input) && m % k.StripesPerBlock() == 0
    requires STRIPE_LEN * nbStripes < |input| <= STRIPE_LEN * (nbStripes + 1) && acc == k.Consumed(whole, m)
    ensures Remaining(whole, m', rest) && m <= m' && m' % k.StripesPerBlock() == 0 && left < k.StripesPerBlock()
    ensures STRIPE_LEN * left < |rest| <= STRIPE_LEN * (left + 1) && acc' == k.Consumed(whole, m')
  {
    hide Kernel.Consumed, Kernel.BeforeScramble, Kernel.Accumulated, Kernel.ScrambleStep, Kernel.StripesPerBlock;
    var perBlock := k.StripesPerBlock();
    acc', rest, left, m' := acc, input, nbStripes, m;
    while left >= perBlock
      invariant Remaining(whole, m', rest) && m <= m' && m' % perBlock == 0
      invariant STRIPE_LEN * left < |rest| <= STRIPE_LEN * (left + 1) && acc' == k.Consumed(whole, m')
    {
      RemainingAfter(whole, m', rest, perBlock);
      acc' := Accumulate(k, acc', rest, 0, perBlock);
      k.ToBlockEnd(whole, m', rest, perBlock);
      acc' := k.ScrambleStep(acc');
      rest, m', left := rest[STRIPE_LEN * perBlock..], m' + perBlock, left - perBlock;
    }
  }

  /** The large-input path: to the end of the block under way, then whole blocks, then stripes,
      always leaving between 1 and 64 bytes. */
  method ConsumeBlocks<A, H>(k: Kernel<A, H>, acc: A, nbStripesSoFar: nat, input: seq<byte>, ghost whole: seq<byte>,
                             ghost m: nat)
    returns (acc': A, soFar': nat, rest: seq<byte>, ghost m': nat)
    requires k.Valid() && Remaining(whole, m, input) && |input| > STRIPE_LEN * k.StripesPerBlock()
    requires acc == k.Consumed(whole, m) && nbStripesSoFar == m % k.StripesPerBlock()
    ensures Remaining(whole, m', rest) && 0 < |rest| <= STRIPE_LEN && m < m'
    ensures acc' == k.Consumed(whole, m') && soFar' == m' % k.StripesPerBlock()
  {
    hide Kernel.Consumed, Kernel.BeforeScramble, Kernel.Accumulated, Kernel.ScrambleStep, Kernel.StripesPerBlock;
    var nbStripes := (|input| - 1) / STRIPE_LEN;
    var toEnd := k.StripesPerBlock() - nbStripesSoFar;
    RemainingAfter(whole, m, input, toEnd);
    acc' := Accumulate(k, acc, input, nbStripesSoFar * SECRET_CONSUME_RATE, toEnd);
    k.ToBlockEnd(whole, m, input, toEnd);
    acc' := k.ScrambleStep(acc');
    acc', rest, nbStripes,
        m' := ConsumeWholeBlocks(k, acc', input[STRIPE_LEN * toEnd..], nbStripes - toEnd, whole, m + toEnd);
    RemainingAfter(whole, m', rest, nbStripes);
    acc' := Accumulate(k, acc', rest, 0, nbStripes);
    k.InBlock(whole, m', rest, nbStripes);
    rest, m', soFar' := rest[STRIPE_LEN * nbStripes..], m' + nbStripes, nbStripes;
  }

  /** The middle path: 256 bytes at a time, always leaving between 1 and 256 bytes. */
  method ConsumeBuffers<A, H>(k: Kernel<A, H>, acc: A, nbStripesSoFar: nat, input: seq<byte>, ghost whole: seq<byte>,
                              ghost m: nat)
    returns (acc': A, soFar': nat, rest: seq<byte>, ghost m': nat)
    requires k.Valid() && Remaining(whole, m, input) && |input| > INTERNALBUFFER_SIZE
    requires acc == k.Consumed(whole, m) && nbStripesSoFar == m % k.StripesPerBlock()
    ensures Remaining(whole, m', rest) && 0 < |rest| <= INTERNALBUFFER_SIZE && m < m'
    ensures acc' == k.Consumed(whole, m') && soFar' == m' % k.StripesPerBlock()
  {
    hide Kernel.Consumed, Kernel.BeforeScramble, Kernel.Accumulated, Kernel.ScrambleStep, Kernel.StripesPerBlock;
    acc', soFar', rest, m' := acc, nbStripesSoFar, input, m;
    while |rest| > INTERNALBUFFER_SIZE
      invariant Remaining(whole, m', rest) && 0 < |rest| && m <= m' && (|rest| <= INTERNALBUFFER_SIZE ==> m < m')
      invariant acc' == k.Consumed(whole, m') && soFar' == m' % k.StripesPerBlock()
    {
      RemainingAfter(whole, m', rest, INTERNALBUFFER_STRIPES);
      acc', soFar' := ConsumeStripes(k, acc', soFar', rest, INTERNALBUFFER_STRIPES, whole, m');
      rest, m' := rest[INTERNALBUFFER_SIZE..], m' + INTERNALBUFFER_STRIPES;
    }
  }

  class State<A, H> {
    const kernel: Kernel<A, H>
    var acc: A
    const buffer: array<byte>
    var bufferedSize: nat
    var nbStripesSoFar: nat
    var totalLen: nat
    ghost var Input: seq<byte>    // everything ingested so far
    ghost var Stripes: nat        // how many stripes of it are consumed

    ghost predicate Valid()
      reads this, buffer
    {
      totalLen == |Input| && Holding()
    }

    /** The accumulator and the buffer stand for the input. */
    ghost predicate Holding()
      reads this, buffer
    {
      && kernel.Valid() && buffer.Length == INTERNALBUFFER_SIZE
      && |Input| == STRIPE_LEN * Stripes + bufferedSize
      && bufferedSize <= INTERNALBUFFER_SIZE && (|Input| > 0 ==> bufferedSize > 0)
      && (Stripes > 0 ==> |Input| > INTERNALBUFFER_SIZE)
      && acc == kernel.Consumed(Input, Stripes) && nbStripesSoFar == Stripes % kernel.StripesPerBlock()
      && buffer[..bufferedSize] == Input[STRIPE_LEN * Stripes..]
      && KeepsTail(Input, Stripes, buffer[..], bufferedSize)
    }

    /** reset */
    constructor (k: Kernel<A, H>)
      requires k.Valid()
      ensures Valid() && Input == [] && kernel == k && fresh(buffer)
    {
      kernel, acc, buffer := k, k.init, new byte[INTERNALBUFFER_SIZE](_ => 0);
      bufferedSize, nbStripesSoFar, totalLen, Input, Stripes := 0, 0, 0, [], 0;
      new;
      assert 0 % kernel.StripesPerBlock() == 0;
    }

    method CopyToBuffer(at: nat, src: seq<byte>)
      requires at + |src| <= buffer.Length
      modifies buffer
      ensures buffer[..] == old(buffer[..at]) + src + old(buffer[at + |src|..])
    {
      forall i | 0 <= i < |src| {
        buffer[at + i] := src[i];
      }
    }

    /** Ingesting more bytes, however the input is cut into calls. */
    method Update(input: seq<byte>)
      requires Valid()
      modifies this, buffer
      ensures Valid() && Input == old(Input) + input
    {
      hide Kernel.Consumed, Kernel.BeforeScramble, Kernel.Accumulated, Kernel.ScrambleStep, Kernel.StripesPerBlock,
           KeepsTail;
      if bufferedSize + |input| <= INTERNALBUFFER_SIZE {
        kernel.ConsumedOfPrefix(Input, input, Stripes);
        TailStays(Input, Stripes, buffer[..], bufferedSize, input);
        CopyToBuffer(bufferedSize, input);
        totalLen, bufferedSize, Input := totalLen + |input|, bufferedSize + |input|, Input + input;
      } else {
        UpdateBeyondBuffer(input);
      }
    }

    method UpdateBeyondBuffer(input: seq<byte>)
      requires Valid() && bufferedSize + |input| > INTERNALBUFFER_SIZE
      modifies this, buffer
      ensures Valid() && Input == old(Input) + input
    {
      hide Kernel.Consumed, Kernel.StripesPerBlock, KeepsTail;
      totalLen := totalLen + |input|;
      ghost var whole := Input + input;
      if bufferedSize > 0 {
        var a, soFar, rest;
        ghost var m;
        a, soFar, rest, m := CompleteBuffer(input, whole);
        Absorb(a, soFar, rest, whole, m);
      } else {
        kernel.ConsumedOfPrefix(Input, input, Stripes);
        assert whole[STRIPE_LEN * Stripes..] == input;
        TailOfPrefix(Input, input, Stripes, buffer[..], 0);
        Absorb(acc, nbStripesSoFar, input, whole, Stripes);
      }
    }

    /** Fills the buffer and consumes it. */
    method CompleteBuffer(input: seq<byte>, ghost whole: seq<byte>)
      returns (a: A, soFar: nat, rest: seq<byte>, ghost m: nat)
      requires Holding() && 0 < bufferedSize && bufferedSize + |input| > INTERNALBUFFER_SIZE && whole == Input + input
      modifies buffer
      ensures Remaining(whole, m, rest) && |rest| > 0 && KeepsTail(whole, m, buffer[..], 0)
      ensures a == kernel.Consumed(whole, m) && soFar == m % kernel.StripesPerBlock()
    {
      hide Kernel.Consumed, Kernel.StripesPerBlock, KeepsTail, Remaining;
      kernel.ConsumedOfPrefix(Input, input, Stripes);
      var loadSize := INTERNALBUFFER_SIZE - bufferedSize;
      BufferCompleted(Input, input, Stripes, bufferedSize);
      CopyToBuffer(bufferedSize, input[..loadSize]);
      rest, m := input[loadSize..], Stripes + INTERNALBUFFER_STRIPES;
      var full := buffer[..];
      assert full == Input[STRIPE_LEN * Stripes..] + input[..loadSize];
      FullBufferKeepsTail(whole, Stripes, full);
      a, soFar := ConsumeStripes(kernel, acc, nbStripesSoFar, full, INTERNALBUFFER_STRIPES, whole, Stripes);
    }

    /** Keeps the 64 bytes before the ones about to be buffered at the end of the buffer. */
    method KeepPredecessor(last: seq<byte>, ghost whole: seq<byte>, ghost m: nat)
      requires buffer.Length == INTERNALBUFFER_SIZE && 0 < m && STRIPE_LEN * m <= |whole|
      requires last == whole[STRIPE_LEN * (m - 1)..STRIPE_LEN * m]
      modifies buffer
      ensures KeepsTail(whole, m, buffer[..], 0)
    {
      CopyToBuffer(INTERNALBUFFER_SIZE - STRIPE_LEN, last);
      TailCopied(whole, m, buffer[..]);
    }

    /** With an empty buffer: consumes what it may and buffers the rest. */
    method Absorb(a: A, soFar: nat, input: seq<byte>, ghost whole: seq<byte>, ghost m: nat)
      requires kernel.Valid() && buffer.Length == INTERNALBUFFER_SIZE && totalLen == |whole| > INTERNALBUFFER_SIZE
      requires Remaining(whole, m, input) && |input| > 0 && KeepsTail(whole, m, buffer[..], 0)
      requires a == kernel.Consumed(whole, m) && soFar == m % kernel.StripesPerBlock()
      modifies this, buffer
      ensures Valid() && Input == whole
    {
      hide Kernel.Consumed, Kernel.StripesPerBlock, KeepsTail;
      var rest := input;
      ghost var m' := m;
      acc, nbStripesSoFar := a, soFar;
      if |input| > kernel.StripesPerBlock() * STRIPE_LEN {
        acc, nbStripesSoFar, rest, m' := ConsumeBlocks(kernel, a, soFar, input, whole, m);
        KeepPredecessor(input[|input| - |rest| - STRIPE_LEN..|input| - |rest|], whole, m');
      } else if |input| > INTERNALBUFFER_SIZE {
        acc, nbStripesSoFar, rest, m' := ConsumeBuffers(kernel, a, soFar, input, whole, m);
        KeepPredecessor(input[|input| - |rest| - STRIPE_LEN..|input| - |rest|], whole, m');
      }
      BufferRest(rest, whole, m');
    }

    method BufferRest(rest: seq<byte>, ghost whole: seq<byte>, ghost m: nat)
      requires kernel.Valid() && buffer.Length == INTERNALBUFFER_SIZE && totalLen == |whole| > INTERNALBUFFER_SIZE
      requires Remaining(whole, m, rest) && 0 < |rest| <= INTERNALBUFFER_SIZE && KeepsTail(whole, m, buffer[..], 0)
      requires acc == kernel.Consumed(whole, m) && nbStripesSoFar == m % kernel.StripesPerBlock()
      modifies this`bufferedSize, this`Input, this`Stripes, buffer
      ensures Valid() && Input == whole
    {
      hide Kernel.Consumed, Kernel.StripesPerBlock, KeepsTail;
      ghost var b := buffer[..];
      TailSurvives(whole, m, b, rest);
      CopyToBuffer(0, rest);
      ghost var t := buffer[..];
      assert t == rest + b[|rest|..];
      assert buffer[..|rest|] == t[..|rest|];
      bufferedSize, Input, Stripes := |rest|, whole, m;
    }

    /** digest: works on a copy, so the state stays as it is and can ingest more. */
    method Digest() returns (h: H)
      requires Valid()
      ensures h == kernel.Hash(Input)
    {
      hide Kernel.Consumed, Kernel.LongAccumulator, Kernel.StripesPerBlock, KeepsTail;
      if totalLen > MIDSIZE_MAX {
        var a := DigestLong();
        h := kernel.merge(a, totalLen);
      } else {
        assert Stripes == 0 && buffer[..totalLen] == Input;
        h := kernel.short(buffer[..totalLen]);
      }
    }

    method DigestLong() returns (a: A)
      requires Valid() && totalLen > MIDSIZE_MAX
      ensures a == kernel.LongAccumulator(Input)
    {
      hide Kernel.Consumed, Kernel.StripesPerBlock, Kernel.StepAt, Kernel.LongAccumulator, KeepsTail;
      var lastStripe;
      a, lastStripe := LastStripe();
      kernel.LongAccumulatorIs(Input, a);
      a := kernel.StepAt(a, lastStripe, kernel.SecretLimit() - SECRET_LASTACC_START);
    }

    /** Everything but the last stripe accumulated, and that stripe: from the buffer, or, when it
        holds less, with the end of the buffer's former contents in front. */
    method LastStripe() returns (a: A, lastStripe: seq<byte>)
      requires Valid() && totalLen > MIDSIZE_MAX
      ensures a == kernel.Consumed(Input, StripesBefore(|Input|)) && lastStripe == Input[|Input| - STRIPE_LEN..]
    {
      hide Kernel.Consumed, Kernel.StripesPerBlock, KeepsTail, StripesBefore;
      a := acc;
      var held := buffer[..];
      if bufferedSize >= STRIPE_LEN {
        BufferHoldsLastStripe(Input, Stripes, held, bufferedSize);
        var nbStripes, soFar := StripesBefore(bufferedSize), 0;
        a, soFar := ConsumeStripes(kernel, a, nbStripesSoFar, held, nbStripes, Input, Stripes);
        lastStripe := held[bufferedSize - STRIPE_LEN..bufferedSize];
      } else {
        TailCompletesStripe(Input, Stripes, held, bufferedSize);
        var catchupSize := STRIPE_LEN - bufferedSize;
        lastStripe := held[INTERNALBUFFER_SIZE - catchupSize..] + held[..bufferedSize];
      }
    }
  }

  ghost function Flatten(chunks: seq<seq<byte>>): seq<byte> {
    if chunks == [] then [] else Flatten(chunks[..|chunks| - 1]) + chunks[|chunks| - 1]
  }

  /** However an input is cut into update calls, with a digest taken after each if one likes,
      the streaming hash is the hash of the whole. */
  method HashInChunks<A, H>(k: Kernel<A, H>, chunks: seq<seq<byte>>) returns (h: H, prefixes: seq<H>)
    requires k.Valid()
    ensures h == k.Hash(Flatten(chunks))
    ensures |prefixes| == |chunks| && forall i :: 0 <= i < |chunks| ==> prefixes[i] == k.Hash(Flatten(chunks[..i + 1]))
  {
    var s := new State(k);
    prefixes := [];
    for i := 0 to |chunks|
      invariant s.Valid() && s.kernel == k && s.Input == Flatten(chunks[..i]) && fresh(s) && fresh(s.buffer)
      invariant |prefixes| == i && forall j :: 0 <= j < i ==> prefixes[j] == k.Hash(Flatten(chunks[..j + 1]))
    {
      assert chunks[..i + 1][..i] == chunks[..i];
      s.Update(chunks[i]);
      var d := s.Digest();
      prefixes := prefixes + [d];
    }
    assert chunks[..|chunks|] == chunks;
    h := s.Digest();
  }

  /** Unless the buffered bytes overwrote them, the last 64 bytes of the buffer are the last
      consumed ones. */
  ghost predicate KeepsTail(input: seq<byte>, m: nat, buffer: seq<byte>, buffered: nat)
    requires |buffer| == INTERNALBUFFER_SIZE && STRIPE_LEN * m <= |input|
  {
    m > 0 ==> forall j :: INTERNALBUFFER_SIZE - STRIPE_LEN <= j < INTERNALBUFFER_SIZE && buffered <= j ==>
      buffer[j] == input[STRIPE_LEN * m - INTERNALBUFFER_SIZE + j]
  }

  /** The buffered bytes and the first of the new ones are the next four stripes. */
  lemma BufferCompleted(oldInput: seq<byte>, input: seq<byte>, m: nat, buffered: nat)
    requires |oldInput| == STRIPE_LEN * m + buffered && buffered <= INTERNALBUFFER_SIZE <= buffered + |input|
    ensures var load, whole := INTERNALBUFFER_SIZE - buffered, oldInput + input;
            && Remaining(whole, m + INTERNALBUFFER_STRIPES, input[load..])
            && STRIPE_LEN * (m + INTERNALBUFFER_STRIPES) <= |whole|
            && whole[STRIPE_LEN * m..STRIPE_LEN * (m + INTERNALBUFFER_STRIPES)]
                == oldInput[STRIPE_LEN * m..] + input[..load]
  {
    var load, whole := INTERNALBUFFER_SIZE - buffered, oldInput + input;
    assert STRIPE_LEN * (m + INTERNALBUFFER_STRIPES) == |oldInput| + load;
    assert whole[|oldInput| + load..] == input[load..];
  }

  lemma TailOfPrefix(input: seq<byte>, more: seq<byte>, m: nat, buffer: seq<byte>, buffered: nat)
    requires |buffer| == INTERNALBUFFER_SIZE && STRIPE_LEN * m <= |input| && KeepsTail(input, m, buffer, buffered)
    ensures KeepsTail(input + more, m, buffer, buffered)
  {
  }

  lemma FullBufferKeepsTail(whole: seq<byte>, m: nat, buffer: seq<byte>)
    requires |buffer| == INTERNALBUFFER_SIZE && STRIPE_LEN * (m + INTERNALBUFFER_STRIPES) <= |whole|
    requires buffer == whole[STRIPE_LEN * m..STRIPE_LEN * (m + INTERNALBUFFER_STRIPES)]
    ensures KeepsTail(whole, m + INTERNALBUFFER_STRIPES, buffer, 0)
    ensures buffer[..STRIPE_LEN * INTERNALBUFFER_STRIPES] == buffer
  {
  }

  lemma TailStays(input: seq<byte>, m: nat, buffer: seq<byte>, buffered: nat, more: seq<byte>)
    requires |buffer| == INTERNALBUFFER_SIZE && STRIPE_LEN * m <= |input| && buffered + |more| <= INTERNALBUFFER_SIZE
    requires KeepsTail(input, m, buffer, buffered)
    ensures KeepsTail(input + more, m, buffer[..buffered] + more + buffer[buffered + |more|..], buffered + |more|)
  {
  }

  /** With fewer than 64 bytes buffered, the end of the buffer completes the last stripe. */
  lemma TailCompletesStripe(input: seq<byte>, m: nat, buffer: seq<byte>, buffered: nat)
    requires |buffer| == INTERNALBUFFER_SIZE && m > 0 && STRIPE_LEN * m + buffered == |input|
    requires 0 < buffered < STRIPE_LEN
    requires buffer[..buffered] == input[STRIPE_LEN * m..] && KeepsTail(input, m, buffer, buffered)
    ensures buffer[INTERNALBUFFER_SIZE - (STRIPE_LEN - buffered)..] + buffer[..buffered]
        == input[|input| - STRIPE_LEN..]
    ensures m == StripesBefore(|input|)
  {
    var s, t := buffer[INTERNALBUFFER_SIZE - (STRIPE_LEN - buffered)..] + buffer[..buffered],
        input[|input| - STRIPE_LEN..];
    forall j | 0 <= j < STRIPE_LEN ensures s[j] == t[j] {
      if j < STRIPE_LEN - buffered {
        assert s[j] == buffer[INTERNALBUFFER_SIZE - (STRIPE_LEN - buffered) + j];
      } else {
        assert s[j] == buffer[..buffered][j - (STRIPE_LEN - buffered)];
      }
    }
  }

  /** Otherwise the last stripe is in the buffer, after the stripes still to be consumed. */
  lemma BufferHoldsLastStripe(input: seq<byte>, m: nat, buffer: seq<byte>, buffered: nat)
    requires |buffer| == INTERNALBUFFER_SIZE && STRIPE_LEN * m + buffered == |input|
    requires STRIPE_LEN <= buffered <= INTERNALBUFFER_SIZE
    requires buffer[..buffered] == input[STRIPE_LEN * m..]
    ensures buffer[buffered - STRIPE_LEN..buffered] == input[|input| - STRIPE_LEN..]
    ensures var n := StripesBefore(buffered);
            && n <= 4 && STRIPE_LEN * n <= buffered && m + n == StripesBefore(|input|)
            && buffer[..STRIPE_LEN * n] == input[STRIPE_LEN * m..STRIPE_LEN * (m + n)]
  {
    var n := StripesBefore(buffered);
    assert m + n == StripesBefore(|input|) && n <= 4;
    hide StripesBefore;
    assert buffer[buffered - STRIPE_LEN..buffered] == buffer[..buffered][buffered - STRIPE_LEN..];
    assert buffer[..STRIPE_LEN * n] == buffer[..buffered][..STRIPE_LEN * n];
    assert input[STRIPE_LEN * m..][..STRIPE_LEN * n] == input[STRIPE_LEN * m..STRIPE_LEN * (m + n)];
  }

  lemma TailSurvives(input: seq<byte>, m: nat, buffer: seq<byte>, rest: seq<byte>)
    requires |buffer| == INTERNALBUFFER_SIZE && STRIPE_LEN * m <= |input| && |rest| <= INTERNALBUFFER_SIZE
    requires KeepsTail(input, m, buffer, 0)
    ensures KeepsTail(input, m, rest + buffer[|rest|..], |rest|)
  {
  }

  lemma TailCopied(input: seq<byte>, m: nat, buffer: seq<byte>)
    requires |buffer| == INTERNALBUFFER_SIZE && m > 0 && STRIPE_LEN * m <= |input|
    requires buffer[INTERNALBUFFER_SIZE - STRIPE_LEN..] == input[STRIPE_LEN * (m - 1)..STRIPE_LEN * m]
    ensures KeepsTail(input, m, buffer, 0)
  {
    forall j | INTERNALBUFFER_SIZE - STRIPE_LEN <= j < INTERNALBUFFER_SIZE
      ensures buffer[j] == input[STRIPE_LEN * m - INTERNALBUFFER_SIZE + j]
    {
      assert buffer[j] == buffer[INTERNALBUFFER_SIZE - STRIPE_LEN..][j - (INTERNALBUFFER_SIZE - STRIPE_LEN)];
    }
  }

  // ----- what is hashed, in numbers

  /** A call of the stripe step or of the scramble, with its arguments. */
  datatype Feed = Stripe(data: seq<byte>, key: seq<byte>) | Scramble(key: seq<byte>)

  /** A kernel that only writes down what it is handed. */
  function Recorder<H>(secret: seq<byte>, merge: (seq<Feed>, nat) -> H, short: seq<byte> -> H): Kernel<seq<Feed>, H> {
    Kernel(secret, [], (fed: seq<Feed>, data, key) => fed + [Stripe(data, key)],
           (fed: seq<Feed>, key) => fed + [Scramble(key)], merge, short)
  }

  /** Where the call for stripe i stands: one scramble comes after every block. */
  function Place(i: nat, block: nat): nat
    requires block > 0
  {
    i + Quotient(i, block)
  }

  /** The first n stripes of 64 bytes, each with the secret at 8 times its place in its block, and
      after each block a scramble with the last 64 bytes of the secret. */
  ghost predicate Fed(fed: seq<Feed>, secret: seq<byte>, input: seq<byte>, n: nat)
    requires |secret| >= 136 && 64 * n <= |input|
  {
    var block := (|secret| - 64) / 8;
    && |fed| >= Place(n, block)
    && (forall i :: 0 <= i < n ==> StripeFed(fed, secret, input, i, block))
  }

  ghost predicate StripeFed(fed: seq<Feed>, secret: seq<byte>, input: seq<byte>, i: nat, block: nat)
    requires block == (|secret| - 64) / 8 > 0 && |secret| >= 136 && 64 * i + 64 <= |input|
  {
    && Place(i, block) < |fed| && i % block < block
    && fed[Place(i, block)] == Stripe(input[64 * i..64 * i + 64], secret[8 * (i % block)..8 * (i % block) + 64])
    && ((i + 1) % block == 0 ==>
         Place(i, block) + 1 < |fed| && fed[Place(i, block) + 1] == Scramble(secret[|secret| - 64..]))
  }

  lemma StripeStillFed(fed: seq<Feed>, more: seq<Feed>, secret: seq<byte>, input: seq<byte>, n: nat)
    requires |secret| >= 136 && 64 * n <= |input| && Fed(fed, secret, input, n)
    ensures Fed(fed + more, secret, input, n)
  {
    hide Place;
    var block := (|secret| - 64) / 8;
    forall i | 0 <= i < n ensures StripeFed(fed + more, secret, input, i, block) {
      assert StripeFed(fed, secret, input, i, block);
    }
  }

  lemma PlaceOfNext(i: nat, block: nat)
    requires block > 0
    ensures Place(i + 1, block) == Place(i, block) + if (i + 1) % block == 0 then 2 else 1
  {
    QuotientOfNext(block, i);
  }

  lemma {:induction false} ConsumedIsFed<H>(secret: seq<byte>, merge: (seq<Feed>, nat) -> H, short: seq<byte> -> H,
                                            input: seq<byte>, n: nat)
    requires |secret| >= 136 && 64 * n <= |input|
    ensures var fed := Recorder(secret, merge, short).Consumed(input, n);
            Fed(fed, secret, input, n) && |fed| == Place(n, (|secret| - 64) / 8)
  {
    var k, block := Recorder(secret, merge, short), (|secret| - 64) / 8;
    if n > 0 {
      ConsumedIsFed(secret, merge, short, input, n - 1);
      var before, after := k.Consumed(input, n - 1), k.Consumed(input, n);
      PlaceOfNext(n - 1, block);
      hide Place;
      assert k.StripesPerBlock() == block;
      var stripe := Stripe(input[64 * (n - 1)..64 * n], secret[8 * ((n - 1) % block)..8 * ((n - 1) % block) + 64]);
      assert k.BeforeScramble(input, n) == before + [stripe];
      var more := if n % block == 0 then [stripe, Scramble(secret[|secret| - 64..])] else [stripe];
      assert after == before + more;
      StripeStillFed(before, more, secret, input, n - 1);
      assert StripeFed(after, secret, input, n - 1, block);
    }
  }

  /** What the hash of more than 240 bytes is made of: every stripe that leaves a byte over, the
      scrambles, and last the final 64 bytes with the secret that ends 7 bytes before its end. */
  lemma HashFeeds<H>(secret: seq<byte>, merge: (seq<Feed>, nat) -> H, short: seq<byte> -> H, input: seq<byte>)
    requires |secret| >= 136
    ensures var k := Recorder(secret, merge, short);
            if |input| <= 240 then k.Hash(input) == short(input)
            else
              var n, block := (|input| - 1) / 64, (|secret| - 64) / 8;
              var fed := k.LongAccumulator(input);
              && k.Hash(input) == merge(fed, |input|)
              && Fed(fed, secret, input, n) && |fed| == n + n / block + 1
              && fed[|fed| - 1] == Stripe(input[|input| - 64..], secret[|secret| - 71..|secret| - 7])
  {
    if |input| > 240 {
      var k, n, block := Recorder(secret, merge, short), (|input| - 1) / 64, (|secret| - 64) / 8;
      ConsumedIsFed(secret, merge, short, input, n);
      var before := k.Consumed(input, n);
      var last := Stripe(input[|input| - 64..], secret[|secret| - 71..|secret| - 7]);
      hide Kernel.Consumed;
      assert k.LongAccumulator(input) == before + [last];
      StripeStillFed(before, [last], secret, input, n);
    }
  }

  // ----- and so for every kernel

  /** The calls made again, with the kernel's own functions. */
  function Replay<A, H>(k: Kernel<A, H>, fed: seq<Feed>): A {
    if fed == [] then k.init
    else
      var before, last := Replay(k, fed[..|fed| - 1]), fed[|fed| - 1];
      match last
      case Stripe(data, key) => k.accumulate512(before, data, key)
      case Scramble(key) => k.scramble(before, key)
  }

  lemma ReplayOneMore<A, H>(k: Kernel<A, H>, fed: seq<Feed>, last: Feed)
    ensures Replay(k, fed + [last])
         == match last
            case Stripe(data, key) => k.accumulate512(Replay(k, fed), data, key)
            case Scramble(key) => k.scramble(Replay(k, fed), key)
  {
    assert (fed + [last])[..|fed + [last]| - 1] == fed;
  }

  lemma {:induction false} ConsumedReplays<A, H, G>(k: Kernel<A, H>, merge: (seq<Feed>, nat) -> G,
                                                    short: seq<byte> -> G, input: seq<byte>, n: nat)
    requires k.Valid() && 64 * n <= |input|
    ensures k.Consumed(input, n) == Replay(k, Recorder(k.secret, merge, short).Consumed(input, n))
  {
    if n > 0 {
      var r := Recorder(k.secret, merge, short);
      ConsumedReplays(k, merge, short, input, n - 1);
      hide Replay;
      assert r.StripesPerBlock() == k.StripesPerBlock();
      var i := (n - 1) % k.StripesPerBlock();
      ReplayOneMore(k, r.Consumed(input, n - 1), Stripe(input[64 * (n - 1)..64 * n], k.secret[8 * i..8 * i + 64]));
      ReplayOneMore(k, r.BeforeScramble(input, n), Scramble(k.secret[|k.secret| - 64..]));
    }
  }

  /** Whatever the stripe step, the scramble and the merge are, the long hash is the merge of the
      recorded calls made with them. */
  lemma HashReplays<A, H, G>(k: Kernel<A, H>, merge: (seq<Feed>, nat) -> G, short: seq<byte> -> G, input: seq<byte>)
    requires k.Valid() && |input| > 240
    ensures k.Hash(input) == k.merge(Replay(k, Recorder(k.secret, merge, short).LongAccumulator(input)), |input|)
  {
    var r, n := Recorder(k.secret, merge, short), (|input| - 1) / 64;
    ConsumedReplays(k, merge, short, input, n);
    hide Replay, Kernel.Consumed;
    ReplayOneMore(k, r.Consumed(input, n), Stripe(input[|input| - 64..], k.secret[|k.secret| - 71..|k.secret| - 7]));
  }
}
