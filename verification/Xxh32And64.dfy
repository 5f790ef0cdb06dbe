/** XXH32 and XXH64: the one-shot loop over 16- or 32-byte blocks, and the streaming states that
    buffer less than a block, both against one definition. The two families share their update
    loop; they differ in word width and in how digest learns whether a block was ever seen. */
module Xxh32And64 {
  import opened Basics
  import opened PowersOfTwo
  import opened Division
  import Xxh3

  /** The four lanes with their round on a block, and what turns lanes and tail into a hash. */
  datatype Kernel<!V> = Kernel(
    blockLen: nat,
    modulus: nat,
    init: V,
    round: (V, seq<byte>) -> V,
    converge: V -> nat,
    seedLane: V -> nat,
    prime5: nat,
    finalize: (nat, seq<byte>) -> nat)
  {
    /** XXH32 has 16-byte blocks and 32-bit words, XXH64 twice that. */
    ghost predicate Valid() {
      (blockLen == 16 && modulus == TWO32) || (blockLen == 32 && modulus == TWO64)
    }

    /** The lanes after every whole block of data, and the bytes left over. */
    function Run(v: V, data: seq<byte>): (r: (V, seq<byte>))
      requires Valid()
      ensures |r.1| < blockLen && |r.1| <= |data| && (|data| < blockLen ==> r == (v, data))
      decreases |data|
    {
      if |data| < blockLen then (v, data) else Run(round(v, data[..blockLen]), data[blockLen..])
    }

    function Mixed(lanes: V, large: bool, len: nat, tail: seq<byte>): nat
      requires Valid()
    {
      finalize(((if large then converge(lanes) else seedLane(lanes) + prime5) + len) % modulus, tail)
    }

    /** Inputs of at least one block are mixed from the lanes, shorter ones from the seed. */
    function Hash(input: seq<byte>): nat
      requires Valid()
    {
      var (lanes, tail) := Run(init, input);
      Mixed(lanes, |input| >= blockLen, |input|, tail)
    }

    /** Where block i of the input lies; blocks are 16 or 32 bytes long. */
    function BlockAt(i: nat): nat
      requires Valid()
    {
      if blockLen == 16 then 16 * i else 32 * i
    }

    /** The states between the blocks of data. */
    ghost predicate Rounds(states: seq<V>, v: V, data: seq<byte>)
      requires Valid()
    {
      && |states| == |data| / blockLen + 1 && states[0] == v && BlockAt(|data| / blockLen) <= |data|
      && forall i :: 0 <= i < |data| / blockLen ==> RoundAt(states, data, i)
    }

    ghost predicate RoundAt(states: seq<V>, data: seq<byte>, i: nat)
      requires Valid() && i + 1 < |states|
    {
      && BlockAt(i) <= BlockAt(i + 1) <= |data|
      && states[i + 1] == round(states[i], data[BlockAt(i)..BlockAt(i + 1)])
    }

    lemma {:induction false} RunInRounds(v: V, data: seq<byte>, states: seq<V>)
      requires Valid() && Rounds(states, v, data)
      ensures Run(v, data) == (states[|data| / blockLen], data[BlockAt(|data| / blockLen)..])
      decreases |data|
    {
      if |data| >= blockLen {
        var rest, n := data[blockLen..], |data| / blockLen;
        assert blockLen == 16 || blockLen == 32;
        assert |rest| / blockLen == n - 1;
        assert RoundAt(states, data, 0);
        forall i | 0 <= i < n - 1 ensures RoundAt(states[1..], rest, i) {
          assert RoundAt(states, data, i + 1);
          assert rest[BlockAt(i)..BlockAt(i + 1)] == data[BlockAt(i + 1)..BlockAt(i + 2)];
        }
        RunInRounds(states[1], rest, states[1..]);
        assert rest[BlockAt(n - 1)..] == data[BlockAt(n)..];
      }
    }

    /** The hash written out: the rounds over all whole blocks, then the lanes converged, or the
        seed and its constant when there was no block, plus the length, wrapped, and the bytes
        after the last whole block. */
    lemma HashInFull(input: seq<byte>, states: seq<V>)
      requires Valid() && Rounds(states, init, input)
      ensures var n := |input| / blockLen;
              && Hash(input) == finalize(((if n > 0 then converge(states[n]) else seedLane(init) + prime5) + |input|)
                                         % (if blockLen == 16 then 0x1_0000_0000 else 0x1_0000_0000_0000_0000),
                                         input[BlockAt(n)..])
              && |input| - BlockAt(n) == |input| % blockLen
    {
      RunInRounds(init, input, states);
      hide Run;
    }

    /** A run can be interrupted anywhere: the bytes left over go in front of what comes next. */
    lemma {:induction false} RunResumes(v: V, data: seq<byte>, more: seq<byte>)
      requires Valid()
      ensures Run(v, data + more) == Run(Run(v, data).0, Run(v, data).1 + more)
      decreases |data|
    {
      if |data| >= blockLen {
        assert (data + more)[..blockLen] == data[..blockLen];
        assert (data + more)[blockLen..] == data[blockLen..] + more;
        RunResumes(round(v, data[..blockLen]), data[blockLen..], more);
      }
    }

    lemma RunOfBlock(v: V, data: seq<byte>)
      requires Valid() && |data| >= blockLen
      ensures Run(v, data) == Run(round(v, data[..blockLen]), data[blockLen..])
    {
    }

    lemma {:induction false} TailLength(v: V, data: seq<byte>)
      requires Valid()
      ensures |Run(v, data).1| == |data| % blockLen
      decreases |data|
    {
      if |data| >= blockLen {
        TailLength(round(v, data[..blockLen]), data[blockLen..]);
        RunOfBlock(v, data);
        hide Run;
        if blockLen == 16 {
          assert (|data| - 16) % 16 == |data| % 16;
        } else {
          assert (|data| - 32) % 32 == |data| % 32;
        }
      }
    }
  }

  /** The block loop of both one-shot functions and of both updates. */
  method ConsumeBlocks<V>(k: Kernel<V>, v: V, input: seq<byte>) returns (v': V, rest: seq<byte>)
    requires k.Valid()
    ensures (v', rest) == k.Run(v, input)
  {
    v', rest := v, input;
    while |rest| >= k.blockLen
      invariant k.Run(v', rest) == k.Run(v, input)
    {
      v', rest := k.round(v', rest[..k.blockLen]), rest[k.blockLen..];
    }
  }

  /** XXH32_endian_align and XXH64_endian_align */
  method OneShot<V>(k: Kernel<V>, input: seq<byte>) returns (h: nat)
    requires k.Valid()
    ensures h == k.Hash(input)
  {
    var lanes, rest := k.init, input;
    if |input| >= k.blockLen {
      lanes, rest := ConsumeBlocks(k, lanes, input);
    }
    h := k.Mixed(lanes, |input| >= k.blockLen, |input|, rest);
  }

  class State<V> {
    const kernel: Kernel<V>
    var v: V
    const mem: array<byte>
    var memsize: nat
    var totalLen: nat      // wraps at the word width
    var largeLen: bool     // kept by XXH32 only
    ghost var Input: seq<byte>

    ghost predicate Valid()
      reads this, mem
    {
      && kernel.Valid() && mem.Length == kernel.blockLen && memsize < kernel.blockLen
      && totalLen == |Input| % kernel.modulus
      && largeLen == (|Input| >= kernel.blockLen)
      && (v, mem[..memsize]) == kernel.Run(kernel.init, Input)
    }

    /** reset */
    constructor (k: Kernel<V>)
      requires k.Valid()
      ensures Valid() && Input == [] && kernel == k && fresh(mem)
    {
      kernel, v, mem := k, k.init, new byte[k.blockLen](_ => 0);
      memsize, totalLen, largeLen, Input := 0, 0, false, [];
    }

    method CopyToMem(at: nat, src: seq<byte>)
      requires at + |src| <= mem.Length
      modifies mem
      ensures mem[..at + |src|] == old(mem[..at]) + src
    {
      forall i | 0 <= i < |src| {
        mem[at + i] := src[i];
      }
    }

    /** Ingesting more bytes, however the input is cut into calls. */
    method Update(input: seq<byte>)
      requires Valid()
      modifies this, mem
      ensures Valid() && Input == old(Input) + input
    {
      hide Kernel.Run;
      kernel.RunResumes(kernel.init, Input, input);
      Count(|input|);
      Input := Input + input;
      Ingest(input);
    }

    /** The bookkeeping part of update. */
    method Count(n: nat)
      requires kernel.Valid() && totalLen == |Input| % kernel.modulus && largeLen == (|Input| >= kernel.blockLen)
      modifies this`totalLen, this`largeLen
      ensures totalLen == (|Input| + n) % kernel.modulus && largeLen == (|Input| + n >= kernel.blockLen)
    {
      LengthWraps(kernel.modulus, |Input|, n);
      StickyFlag(kernel.blockLen, kernel.modulus, |Input|, n);
      totalLen := (totalLen + n) % kernel.modulus;
      largeLen := largeLen || n >= kernel.blockLen || totalLen >= kernel.blockLen;
    }

    /** The buffering part of update. */
    method Ingest(input: seq<byte>)
      requires kernel.Valid() && mem.Length == kernel.blockLen && memsize < kernel.blockLen
      modifies this`v, this`memsize, mem
      ensures memsize < kernel.blockLen
      ensures (v, mem[..memsize]) == kernel.Run(old(v), old(mem[..memsize]) + input)
    {
      hide Kernel.Run;
      ghost var data := mem[..memsize] + input;
      if memsize + |input| < kernel.blockLen {
        CopyToMem(memsize, input);
        memsize := memsize + |input|;
        return;
      }
      var rest := input;
      if memsize > 0 {
        var fill := kernel.blockLen - memsize;
        CopyToMem(memsize, input[..fill]);
        assert mem[..] == data[..kernel.blockLen];
        assert input[fill..] == data[kernel.blockLen..];
        kernel.RunOfBlock(v, data);
        v, rest := kernel.round(v, mem[..]), input[fill..];
      } else {
        assert data == input;
      }
      v, rest := ConsumeBlocks(kernel, v, rest);
      CopyToMem(0, rest);
      memsize := |rest|;
      assert mem[..memsize] == rest;
    }

    /** XXH32_digest: the sticky flag tells whether a block was ever seen, also after the 32-bit
        total has wrapped. */
    method Digest32() returns (h: nat)
      requires Valid() && kernel.blockLen == 16
      ensures h == kernel.Hash(Input)
    {
      LengthWraps(kernel.modulus, |Input|,
                  (if largeLen then kernel.converge(v) else kernel.seedLane(v) + kernel.prime5));
      h := kernel.Mixed(v, largeLen, totalLen, mem[..memsize]);
    }

    /** XXH64_digest: judges by the 64-bit total, and takes the tail's length from it too. */
    method Digest64() returns (h: nat)
      requires Valid() && kernel.blockLen == 32 && |Input| < TWO64
      ensures h == kernel.Hash(Input)
    {
      kernel.TailLength(kernel.init, Input);
      assert totalLen == |Input|;
      h := kernel.Mixed(v, totalLen >= 32, totalLen, mem[..totalLen % 32]);
    }
  }

  lemma LengthWraps(modulus: nat, a: nat, b: nat)
    requires modulus > 0
    ensures (a % modulus + b) % modulus == (a + b) % modulus
  {
    assert a + b == a / modulus * modulus + (a % modulus + b);
    DivModOfSum(modulus, a / modulus, a % modulus + b);
  }

  /** The sticky test is exact although the total it looks at wraps. */
  lemma StickyFlag(blockLen: nat, modulus: nat, before: nat, len: nat)
    requires 0 < 2 * blockLen <= modulus
    ensures (before >= blockLen || len >= blockLen || (before % modulus + len) % modulus >= blockLen)
        == (before + len >= blockLen)
  {
    if before < blockLen && len < blockLen {
      DivMod(modulus, 0, before);
      DivMod(modulus, 0, before + len);
    }
  }

  /** However an input is cut into update calls, the streaming hash is the hash of the whole. */
  method HashInChunks<V>(k: Kernel<V>, chunks: seq<seq<byte>>) returns (h: nat)
    requires k.Valid() && (k.blockLen == 32 ==> |Xxh3.Flatten(chunks)| < TWO64)
    ensures h == k.Hash(Xxh3.Flatten(chunks))
  {
    var s := new State(k);
    for i := 0 to |chunks|
      invariant s.Valid() && s.kernel == k && s.Input == Xxh3.Flatten(chunks[..i]) && fresh(s) && fresh(s.mem)
    {
      assert chunks[..i + 1][..i] == chunks[..i];
      s.Update(chunks[i]);
    }
    assert chunks[..|chunks|] == chunks;
    if k.blockLen == 16 {
      h := s.Digest32();
    } else {
      h := s.Digest64();
    }
  }
}
