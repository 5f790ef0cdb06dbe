/** Binary patching: an instruction is replaced by a branch to a trampoline behind the code, which
    runs the injected code, the instruction, and branches back. Positions are in 4-byte words. */
module Trampolines {
  import opened BranchEncoding

  type Word = int

  function Branch(field: nat): Word { S_BRANCH + field }

  /** create_s_branch between positions in words; addresses are in bytes. */
  function BranchTo(from: nat, to: nat): Word { Branch(UnsignedField(4 * from, 4 * to)) }

  // ----- The machine

  /** long: whether a word begins an 8-byte instruction. next: the effect of an instruction at a
      position on the position and the state. view: what the program can see of the state. */
  datatype Isa<!S(!new), !V> = Isa(long: Word -> bool, next: (seq<Word>, int, S) -> (int, S), view: S -> V)
  {
    function SizeAt(code: seq<Word>, pc: nat): nat
      requires pc < |code|
    {
      if long(code[pc]) then 2 else 1
    }

    /** A whole instruction lies at pc. */
    predicate Fetches(code: seq<Word>, pc: int) {
      0 <= pc < |code| && pc + SizeAt(code, pc) <= |code|
    }

    function Fetched(code: seq<Word>, pc: int): seq<Word>
      requires Fetches(code, pc)
    {
      code[pc..pc + SizeAt(code, pc)]
    }

    /** S_BRANCH and S_NOP do what the manual says. */
    ghost predicate Sound() {
      && (forall field: nat :: field < 0x1_0000 ==> !long(Branch(field)))
      && (forall field: nat, pc, s :: field < 0x1_0000 ==>
          next([Branch(field)], pc, s) == (pc + 1 + Signed16(field), s))
      && !long(S_NOP) && (forall pc, s :: next([S_NOP], pc, s) == (pc + 1, s))
    }

    /** The instruction's effect depends on, and changes, only what the program can see. */
    ghost predicate Respects(words: seq<Word>) {
      forall pc, s, t :: view(s) == view(t) ==>
        next(words, pc, s).0 == next(words, pc, t).0 && view(next(words, pc, s).1) == view(next(words, pc, t).1)
    }

    /** Not a branch: it goes on to the next instruction, and does not depend on where it is. */
    ghost predicate Straight(words: seq<Word>) {
      && (forall pc, s :: next(words, pc, s).0 == pc + |words|)
      && (forall pc, qc, s :: next(words, pc, s).1 == next(words, qc, s).1)
    }

    /** At most k steps: the positions visited, then where execution stands and the state. It
        stops where no instruction can be fetched. */
    ghost function Run(code: seq<Word>, pc: int, s: S, k: nat): (seq<int>, int, S)
      decreases k
    {
      if k == 0 || !Fetches(code, pc) then ([], pc, s)
      else
        var (pc', s') := next(Fetched(code, pc), pc, s);
        var (visited, pc'', s'') := Run(code, pc', s', k - 1);
        ([pc] + visited, pc'', s'')
    }

    /** Instructions one after the other, none a branch. */
    ghost predicate StraightBlock(block: seq<Word>) {
      block != [] ==> Fetches(block, 0) && Straight(Fetched(block, 0)) && StraightBlock(block[SizeAt(block, 0)..])
    }

    ghost function BlockVisits(block: seq<Word>, at: int): seq<int>
      requires StraightBlock(block)
    {
      if block == [] then [] else [at] + BlockVisits(block[SizeAt(block, 0)..], at + SizeAt(block, 0))
    }

    ghost function AfterBlock(block: seq<Word>, s: S): S
      requires StraightBlock(block)
    {
      if block == [] then s else AfterBlock(block[SizeAt(block, 0)..], next(Fetched(block, 0), 0, s).1)
    }

    /** Straight-line code that leaves alone what the program can see. */
    ghost predicate Invisible(block: seq<Word>) {
      StraightBlock(block) && forall s :: view(AfterBlock(block, s)) == view(s)
    }
  }

  lemma {:induction false} RunSplit<S(!new), V>(isa: Isa<S, V>, code: seq<Word>, pc: int, s: S, j: nat, k: nat)
    ensures var (v1, pc1, s1) := isa.Run(code, pc, s, j);
            var (v2, pc2, s2) := isa.Run(code, pc1, s1, k);
            isa.Run(code, pc, s, j + k) == (v1 + v2, pc2, s2)
    decreases j
  {
    if j > 0 && isa.Fetches(code, pc) {
      var (pc', s') := isa.next(isa.Fetched(code, pc), pc, s);
      RunSplit(isa, code, pc', s', j - 1, k);
      assert j + k - 1 == j - 1 + k;
      var (v1, pc1, s1) := isa.Run(code, pc', s', j - 1);
      var v2 := isa.Run(code, pc1, s1, k).0;
      assert [pc] + (v1 + v2) == ([pc] + v1) + v2;
    } else if j > 0 {
      assert isa.Run(code, pc, s, j) == isa.Run(code, pc, s, k) == isa.Run(code, pc, s, j + k) == ([], pc, s);
      assert [] + isa.Run(code, pc, s, k).0 == isa.Run(code, pc, s, k).0;
    } else {
      assert [] + isa.Run(code, pc, s, k).0 == isa.Run(code, pc, s, k).0;
    }
  }

  /** Straight-line code, wherever it is, runs from its start to its end. */
  lemma {:induction false} BlockRuns<S(!new), V>(isa: Isa<S, V>, code: seq<Word>, at: nat, block: seq<Word>, s: S)
    requires isa.StraightBlock(block) && at + |block| <= |code| && code[at..at + |block|] == block
    ensures isa.Run(code, at, s, |isa.BlockVisits(block, at)|)
        == (isa.BlockVisits(block, at), at + |block|, isa.AfterBlock(block, s))
    decreases |block|
  {
    if block != [] {
      var n := isa.SizeAt(block, 0);
      assert code[at] == block[0] && isa.Fetched(code, at) == isa.Fetched(block, 0);
      BlockRuns(isa, code, at + n, block[n..], isa.next(isa.Fetched(block, 0), 0, s).1);
    }
  }

  // ----- The patched code

  /** Where the original instruction is within its trampoline. */
  ghost predicate PatchedAt<S(!new), V>(isa: Isa<S, V>, original: seq<Word>, code: seq<Word>, injected: seq<Word>,
                                        at: nat, tramp: nat)
    requires at < |original|
  {
    var size := isa.SizeAt(original, at);
    var instr := tramp + |injected|;
    && isa.Fetches(original, at) && |original| <= tramp && instr + size < |code|
    && code[at] == BranchTo(at, tramp)
    && (size == 2 ==> code[at + 1] == S_NOP)
    && code[tramp..instr] == injected
    && code[instr..instr + size] == isa.Fetched(original, at)
    && code[instr + size] == BranchTo(instr + size, at + 1)
  }

  ghost predicate Reaches<S(!new), V>(isa: Isa<S, V>, original: seq<Word>, injected: seq<Word>, at: nat, tramp: nat)
    requires at < |original|
  {
    InReach(4 * at, 4 * tramp) && InReach(4 * (tramp + |injected| + isa.SizeAt(original, at)), 4 * (at + 1))
  }

  /** An overwritten position: of a patched instruction. */
  ghost predicate Touched<S(!new), V>(isa: Isa<S, V>, original: seq<Word>, patches: map<nat, nat>, w: nat)
    requires w < |original|
  {
    w in patches || (w > 0 && w - 1 in patches && isa.long(original[w - 1]))
  }

  ghost predicate Patched<S(!new), V>(isa: Isa<S, V>, original: seq<Word>, code: seq<Word>, injected: seq<Word>,
                                      patches: map<nat, nat>) {
    && |original| <= |code|
    && (forall w :: 0 <= w < |original| && !Touched(isa, original, patches, w) ==> code[w] == original[w])
    && (forall at :: at in patches ==> at < |original| && PatchedAt(isa, original, code, injected, at, patches[at]))
  }

  /** The starts of the instructions: whole, and none at the second word of another. */
  ghost predicate Disassembly<S(!new), V>(isa: Isa<S, V>, original: seq<Word>, starts: set<nat>) {
    forall at :: at in starts ==> isa.Fetches(original, at) && (isa.long(original[at]) ==> at + 1 !in starts)
  }

  /** Where the patched code goes when the original executes the instruction at pc: the jump, the
      injected code, the instruction, the jump back, and the no-op left by a long one. */
  ghost function Visits<S(!new), V>(isa: Isa<S, V>, original: seq<Word>, injected: seq<Word>, patches: map<nat, nat>,
                                    pc: int): seq<int>
    requires isa.StraightBlock(injected)
  {
    if 0 <= pc < |original| && pc in patches then
      var tramp := patches[pc];
      var instr := tramp + |injected|;
      var size := isa.SizeAt(original, pc);
      [pc] + isa.BlockVisits(injected, tramp) + [instr] + [instr + size] + if size == 2 then [pc + 1] else []
    else [pc]
  }

  ghost function AllVisits<S(!new), V>(isa: Isa<S, V>, original: seq<Word>, injected: seq<Word>,
                                       patches: map<nat, nat>, pcs: seq<int>): seq<int>
    requires isa.StraightBlock(injected)
  {
    if pcs == [] then []
    else Visits(isa, original, injected, patches, pcs[0]) + AllVisits(isa, original, injected, patches, pcs[1..])
  }

  lemma OneStep<S(!new), V>(isa: Isa<S, V>, code: seq<Word>, pc: int, s: S)
    requires isa.Fetches(code, pc)
    ensures var (pc', s') := isa.next(isa.Fetched(code, pc), pc, s); isa.Run(code, pc, s, 1) == ([pc], pc', s')
  {
    var (pc', s') := isa.next(isa.Fetched(code, pc), pc, s);
    assert isa.Run(code, pc', s', 0) == ([], pc', s');
    assert [pc] + [] == [pc];
  }

  lemma BranchStep<S(!new), V>(isa: Isa<S, V>, code: seq<Word>, pc: nat, target: nat, s: S)
    requires isa.Sound() && pc < |code| && code[pc] == BranchTo(pc, target) && InReach(4 * pc, 4 * target)
    ensures isa.Run(code, pc, s, 1) == ([pc], target, s)
  {
    var field := UnsignedField(4 * pc, 4 * target);
    BranchLands(pc, target);
    hide UnsignedField, InReach, Signed16, Branch;
    assert code[pc] == Branch(field) && isa.Fetched(code, pc) == [Branch(field)];
    assert isa.next([Branch(field)], pc, s) == (pc + 1 + Signed16(field), s);
    OneStep(isa, code, pc, s);
  }

  lemma BranchLands(pc: nat, target: nat)
    requires InReach(4 * pc, 4 * target)
    ensures pc + 1 + Signed16(UnsignedField(4 * pc, 4 * target)) == target
  {
    ArrivesExactlyInReach(4 * pc, 4 * target);
    hide UnsignedField;
  }

  // ----- Execution is preserved

  /** The patched instructions are whole instructions that are not branches, the code injected
      before them is invisible, and every trampoline is in reach. */
  ghost predicate Instrumented<S(!new), V>(isa: Isa<S, V>, original: seq<Word>, code: seq<Word>, injected: seq<Word>,
                                           patches: map<nat, nat>, starts: set<nat>) {
    && isa.Sound() && isa.Invisible(injected) && Disassembly(isa, original, starts)
    && Patched(isa, original, code, injected, patches)
    && (forall at :: at in starts ==> isa.Respects(isa.Fetched(original, at)))
    && (forall at :: at in patches ==> at in starts && Reaches(isa, original, injected, at, patches[at]))
    && (forall at :: at in patches ==> at in starts && isa.Straight(isa.Fetched(original, at)))
  }

  /** An instruction that is not patched is still there, whole. */
  lemma UntouchedStep<S(!new), V>(isa: Isa<S, V>, original: seq<Word>, code: seq<Word>, injected: seq<Word>,
                                  patches: map<nat, nat>, starts: set<nat>, pc: nat)
    requires Disassembly(isa, original, starts) && Patched(isa, original, code, injected, patches)
    requires forall at :: at in patches ==> at in starts
    requires pc in starts && pc !in patches
    ensures isa.Fetches(code, pc) && isa.Fetched(code, pc) == isa.Fetched(original, pc)
  {
    assert !Touched(isa, original, patches, pc);
    if isa.long(original[pc]) { assert !Touched(isa, original, patches, pc + 1); }
  }

  /** Through the trampoline and back. */
  lemma TrampolineRuns<S(!new), V>(isa: Isa<S, V>, original: seq<Word>, code: seq<Word>, injected: seq<Word>,
                                   at: nat, tramp: nat, t: S) returns (k: nat)
    requires isa.Sound() && isa.StraightBlock(injected) && at < |original| <= |code|
    requires PatchedAt(isa, original, code, injected, at, tramp) && Reaches(isa, original, injected, at, tramp)
    requires isa.Straight(isa.Fetched(original, at))
    ensures k > 0 && isa.Run(code, at, t, k) ==
            (Visits(isa, original, injected, map[at := tramp], at), at + isa.SizeAt(original, at),
             isa.next(isa.Fetched(original, at), at, isa.AfterBlock(injected, t)).1)
  {
    hide Isa.Run, Isa.Sound, Isa.Straight, Isa.BlockVisits, Isa.AfterBlock, Isa.StraightBlock, InReach, BranchTo;
    var size := isa.SizeAt(original, at);
    var instr := tramp + |injected|;
    var words := isa.Fetched(original, at);
    var n := |isa.BlockVisits(injected, tramp)|;
    var t1 := isa.AfterBlock(injected, t);
    var t2 := isa.next(words, at, t1).1;
    BranchStep(isa, code, at, tramp, t);
    BlockRuns(isa, code, tramp, injected, t);
    RunSplit(isa, code, at, t, 1, n);
    var v1 := [at] + isa.BlockVisits(injected, tramp);
    assert isa.Run(code, at, t, 1 + n) == (v1, instr, t1);
    MovedStep(isa, original, code, at, instr, t1);
    RunSplit(isa, code, at, t, 1 + n, 1);
    assert isa.Run(code, at, t, n + 2) == (v1 + [instr], instr + size, t2);
    BranchStep(isa, code, instr + size, at + 1, t2);
    RunSplit(isa, code, at, t, n + 2, 1);
    var v3 := v1 + [instr] + [instr + size];
    assert isa.Run(code, at, t, n + 3) == (v3, at + 1, t2);
    if size == 2 {
      NopStep(isa, code, at + 1, t2);
      RunSplit(isa, code, at, t, n + 3, 1);
      k := n + 4;
    } else {
      assert v3 == v3 + [];
      k := n + 3;
    }
  }

  lemma MovedStep<S(!new), V>(isa: Isa<S, V>, original: seq<Word>, code: seq<Word>, at: nat, instr: nat, t: S)
    requires isa.Fetches(original, at) && isa.Straight(isa.Fetched(original, at))
    requires instr + isa.SizeAt(original, at) <= |code|
    requires code[instr..instr + isa.SizeAt(original, at)] == isa.Fetched(original, at)
    ensures isa.Run(code, instr, t, 1)
        == ([instr], instr + isa.SizeAt(original, at), isa.next(isa.Fetched(original, at), at, t).1)
  {
    assert code[instr] == isa.Fetched(original, at)[0];
    assert isa.Fetched(code, instr) == isa.Fetched(original, at);
    OneStep(isa, code, instr, t);
  }

  lemma NopStep<S(!new), V>(isa: Isa<S, V>, code: seq<Word>, pc: nat, t: S)
    requires isa.Sound() && pc < |code| && code[pc] == S_NOP
    ensures isa.Run(code, pc, t, 1) == ([pc], pc + 1, t)
  {
    assert isa.Fetched(code, pc) == [S_NOP];
    OneStep(isa, code, pc, t);
  }

  lemma SeenFromOutside<S(!new), V>(isa: Isa<S, V>, words: seq<Word>, pc: int, s: S, t: S)
    requires isa.Respects(words) && isa.Straight(words) && isa.view(s) == isa.view(t)
    ensures isa.next(words, pc, s).0 == pc + |words|
    ensures isa.view(isa.next(words, pc, s).1) == isa.view(isa.next(words, pc, t).1)
  {
  }

  lemma StepSimulated<S(!new), V>(isa: Isa<S, V>, original: seq<Word>, code: seq<Word>, injected: seq<Word>,
                                  patches: map<nat, nat>, starts: set<nat>, pc: nat, s: S, t: S) returns (k: nat)
    requires Instrumented(isa, original, code, injected, patches, starts) && pc in starts && isa.view(s) == isa.view(t)
    ensures var (pc', s') := isa.next(isa.Fetched(original, pc), pc, s);
            var (visited, qc, t') := isa.Run(code, pc, t, k);
            k > 0 && visited == Visits(isa, original, injected, patches, pc) && qc == pc'
                && isa.view(t') == isa.view(s')
  {
    hide *;
    StepFacts(isa, original, code, injected, patches, starts, pc);
    var words := isa.Fetched(original, pc);
    if pc in patches {
      k := TrampolineRuns(isa, original, code, injected, pc, patches[pc], t);
      InvisibleView(isa, injected, t);
      SeenFromOutside(isa, words, pc, s, isa.AfterBlock(injected, t));
      VisitsOfPatch(isa, original, injected, patches, pc);
    } else {
      UntouchedStep(isa, original, code, injected, patches, starts, pc);
      OneStep(isa, code, pc, t);
      SameView(isa, words, pc, s, t);
      VisitsOfPatch(isa, original, injected, patches, pc);
      k := 1;
    }
  }

  lemma StepFacts<S(!new), V>(isa: Isa<S, V>, original: seq<Word>, code: seq<Word>, injected: seq<Word>,
                              patches: map<nat, nat>, starts: set<nat>, pc: int)
    requires Instrumented(isa, original, code, injected, patches, starts) && pc in starts
    ensures Disassembly(isa, original, starts) && Patched(isa, original, code, injected, patches)
    ensures (forall at :: at in patches ==> at in starts) && 0 <= pc < |original| <= |code|
    ensures isa.Sound() && isa.Invisible(injected) && isa.StraightBlock(injected)
    ensures isa.Fetches(original, pc) && isa.Respects(isa.Fetched(original, pc))
    ensures |isa.Fetched(original, pc)| == isa.SizeAt(original, pc)
    ensures pc in patches ==>
        PatchedAt(isa, original, code, injected, pc, patches[pc]) && Reaches(isa, original, injected, pc, patches[pc])
                              && isa.Straight(isa.Fetched(original, pc))
  {
    hide PatchedAt, Reaches, Touched, Isa.Straight, Isa.Respects, Isa.Sound, Isa.StraightBlock, Isa.AfterBlock;
  }

  lemma InvisibleView<S(!new), V>(isa: Isa<S, V>, injected: seq<Word>, t: S)
    requires isa.Invisible(injected)
    ensures isa.StraightBlock(injected) && isa.view(isa.AfterBlock(injected, t)) == isa.view(t)
  {
  }

  lemma SameView<S(!new), V>(isa: Isa<S, V>, words: seq<Word>, pc: int, s: S, t: S)
    requires isa.Respects(words) && isa.view(s) == isa.view(t)
    ensures isa.next(words, pc, s).0 == isa.next(words, pc, t).0
    ensures isa.view(isa.next(words, pc, s).1) == isa.view(isa.next(words, pc, t).1)
  {
  }

  lemma VisitsOfPatch<S(!new), V>(isa: Isa<S, V>, original: seq<Word>, injected: seq<Word>, patches: map<nat, nat>,
                                  pc: int)
    requires isa.StraightBlock(injected) && 0 <= pc < |original|
    ensures Visits(isa, original, injected, patches, pc)
            == if pc in patches then Visits(isa, original, injected, map[pc := patches[pc]], pc) else [pc]
  {
  }

  ghost predicate AllIn(pcs: seq<int>, starts: set<nat>) {
    forall i :: 0 <= i < |pcs| ==> pcs[i] >= 0 && pcs[i] in starts
  }

  /** Every run of the original is a run of the patched code, with each patched instruction's
      trampoline in the place of the instruction: the same position and the same visible state at
      the end. */
  lemma {:induction false} ExecutionIsPreserved<S(!new), V>(isa: Isa<S, V>, original: seq<Word>, code: seq<Word>,
                                                            injected: seq<Word>, patches: map<nat, nat>,
                                                            starts: set<nat>, pc: int, s: S, t: S,
                                                            n: nat) returns (k: nat)
    requires Instrumented(isa, original, code, injected, patches, starts) && isa.view(s) == isa.view(t)
    requires AllIn(isa.Run(original, pc, s, n).0, starts)
    ensures var (visited, pc', s') := isa.Run(original, pc, s, n);
            var (visited', qc, t') := isa.Run(code, pc, t, k);
            && k >= |visited|
            && visited' == AllVisits(isa, original, injected, patches, visited) && qc == pc'
                && isa.view(t') == isa.view(s')
    decreases n
  {
    hide Instrumented, Visits;
    if n == 0 || !isa.Fetches(original, pc) {
      k := 0;
    } else {
      var (pc1, s1) := isa.next(isa.Fetched(original, pc), pc, s);
      var visited := isa.Run(original, pc, s, n).0;
      assert visited == [pc] + isa.Run(original, pc1, s1, n - 1).0;
      assert visited[0] == pc && visited[1..] == isa.Run(original, pc1, s1, n - 1).0;
      var j := StepSimulated(isa, original, code, injected, patches, starts, pc, s, t);
      var (v, qc, t1) := isa.Run(code, pc, t, j);
      assert AllIn(visited[1..], starts);
      var m := ExecutionIsPreserved(isa, original, code, injected, patches, starts, pc1, s1, t1, n - 1);
      RunSplit(isa, code, pc, t, j, m);
      k := j + m;
    }
  }

  /** And the patched code does nothing else: each of its runs is the beginning of such a run, as
      long as the original has not stopped. */
  lemma PatchedRunsAreOriginal<S(!new), V>(isa: Isa<S, V>, original: seq<Word>, code: seq<Word>, injected: seq<Word>,
      patches: map<nat, nat>, starts: set<nat>, pc: int, s: S, t: S, n: nat)
    requires Instrumented(isa, original, code, injected, patches, starts) && isa.view(s) == isa.view(t)
    requires AllIn(isa.Run(original, pc, s, n).0, starts) && |isa.Run(original, pc, s, n).0| == n
    ensures isa.Run(code, pc, t, n).0 <= AllVisits(isa, original, injected, patches, isa.Run(original, pc, s, n).0)
  {
    hide Instrumented, Visits, AllVisits;
    var k := ExecutionIsPreserved(isa, original, code, injected, patches, starts, pc, s, t, n);
    RunSplit(isa, code, pc, t, n, k - n);
  }

  /** With at most 32768 words in all, every trampoline is in reach. */
  lemma SmallCodeIsReached<S(!new), V>(isa: Isa<S, V>, original: seq<Word>, code: seq<Word>, injected: seq<Word>,
                                       patches: map<nat, nat>)
    requires Patched(isa, original, code, injected, patches) && |code| <= 0x8000
    ensures forall at :: at in patches ==> at < |original| && Reaches(isa, original, injected, at, patches[at])
  {
    hide PatchedAt, Reaches;
    forall at | at in patches ensures at < |original| && Reaches(isa, original, injected, at, patches[at]) {
      OneIsReached(isa, original, code, injected, at, patches[at]);
    }
  }

  lemma OneIsReached<S(!new), V>(isa: Isa<S, V>, original: seq<Word>, code: seq<Word>, injected: seq<Word>, at: nat,
                                 tramp: nat)
    requires at < |original| && PatchedAt(isa, original, code, injected, at, tramp) && |code| <= 0x8000
    ensures Reaches(isa, original, injected, at, tramp)
  {
    hide BranchTo, InReach;
    ShortHop(at, tramp);
    ShortHop(tramp + |injected| + isa.SizeAt(original, at), at + 1);
  }

  lemma ShortHop(from: nat, to: nat)
    requires from < 0x8000 && to <= 0x8000
    ensures InReach(4 * from, 4 * to)
  {
    assert (4 * to - 4 * from - 4) / 4 == to - from - 1;
  }

  // ----- Patching

  /** A decoded instruction: its position and its words. */
  datatype Instr = Instr(offset: nat, data: seq<Word>)

  /** The code decoded from a position on, one instruction after the other. */
  function Instructions<S(!new), V>(isa: Isa<S, V>, original: seq<Word>, from: nat): seq<Instr>
    decreases |original| - from
  {
    if !isa.Fetches(original, from) then []
    else [Instr(from, isa.Fetched(original, from))] + Instructions(isa, original, from + isa.SizeAt(original, from))
  }

  ghost function Offsets(instructions: seq<Instr>): set<nat> {
    set i | 0 <= i < |instructions| :: instructions[i].offset
  }

  /** Consecutive whole instructions. */
  ghost predicate Decoded<S(!new), V>(isa: Isa<S, V>, original: seq<Word>, instructions: seq<Instr>, from: nat) {
    && (forall i :: 0 <= i < |instructions| ==>
          && isa.Fetches(original, instructions[i].offset) && instructions[i].offset >= from
          && instructions[i].data == isa.Fetched(original, instructions[i].offset))
    && (forall i, j :: 0 <= i < j < |instructions| ==>
        instructions[i].offset + |instructions[i].data| <= instructions[j].offset)
  }

  lemma {:induction false} InstructionsAreDecoded<S(!new), V>(isa: Isa<S, V>, original: seq<Word>, from: nat)
    ensures Decoded(isa, original, Instructions(isa, original, from), from)
    decreases |original| - from
  {
    hide Isa.Fetches, Isa.Fetched;
    if isa.Fetches(original, from) {
      var next := from + |isa.Fetched(original, from)|;
      DecodedStep(isa, original, from);
      InstructionsAreDecoded(isa, original, next);
      var rest := Instructions(isa, original, next);
      var all := Instructions(isa, original, from);
      assert all == [Instr(from, isa.Fetched(original, from))] + rest;
      forall i, j | 0 <= i < j < |all| ensures all[i].offset + |all[i].data| <= all[j].offset {
        assert all[j] == rest[j - 1];
        if i > 0 { assert all[i] == rest[i - 1]; }
      }
    }
  }

  lemma DecodedStep<S(!new), V>(isa: Isa<S, V>, original: seq<Word>, from: nat)
    requires isa.Fetches(original, from)
    ensures from + isa.SizeAt(original, from) == from + |isa.Fetched(original, from)| <= |original|
    ensures |isa.Fetched(original, from)| > 0
  {
  }

  lemma DecodedIsDisassembly<S(!new), V>(isa: Isa<S, V>, original: seq<Word>, instructions: seq<Instr>)
    requires Decoded(isa, original, instructions, 0)
    ensures Disassembly(isa, original, Offsets(instructions))
  {
    forall at | at in Offsets(instructions) && isa.long(original[at]) ensures at + 1 !in Offsets(instructions) {
      var i :| 0 <= i < |instructions| && instructions[i].offset == at;
      forall j | 0 <= j < |instructions| ensures instructions[j].offset != at + 1 {
        if i < j {} else if j < i {} else {}
      }
    }
  }

  /** Put together: a small program whose chosen instructions are not branches, patched with
      invisible code, is instrumented as the preservation of execution asks. */
  lemma PatchedProgramIsInstrumented<S(!new), V>(isa: Isa<S, V>, original: seq<Word>, code: seq<Word>,
                                                 injected: seq<Word>, patches: map<nat, nat>,
                                                 instructions: seq<Instr>)
    requires isa.Sound() && isa.Invisible(injected) && instructions == Instructions(isa, original, 0)
    requires Patched(isa, original, code, injected, patches) && patches.Keys <= Offsets(instructions)
    requires |code| <= 0x8000
    requires forall i :: 0 <= i < |instructions| ==> isa.Respects(instructions[i].data)
    requires forall i :: 0 <= i < |instructions| && instructions[i].offset in patches ==>
        isa.Straight(instructions[i].data)
    ensures Instrumented(isa, original, code, injected, patches, Offsets(instructions))
  {
    InstructionsAreDecoded(isa, original, 0);
    DecodedIsDisassembly(isa, original, instructions);
    SmallCodeIsReached(isa, original, code, injected, patches);
    hide Patched, Reaches, Instructions, Isa.Sound, Isa.Invisible, Isa.Straight, Isa.Respects, Isa.Fetched;
    forall at | at in Offsets(instructions)
      ensures isa.Fetches(original, at) && isa.Respects(isa.Fetched(original, at))
      ensures (at in patches ==> isa.Straight(isa.Fetched(original, at)))
    {
      var i :| 0 <= i < |instructions| && instructions[i].offset == at;
    }
  }

  /** What one patch does to the code, with its trampoline appended. */
  ghost function WithPatch<S(!new), V>(isa: Isa<S, V>, original: seq<Word>, code: seq<Word>, injected: seq<Word>,
                                       at: nat): seq<Word>
    requires isa.Fetches(original, at) && |original| <= |code|
  {
    var size, instr := isa.SizeAt(original, at), |code| + |injected|;
    var jump := code[at := BranchTo(at, |code|)];
    (if size == 2 then jump[at + 1 := S_NOP] else jump)
    + injected + isa.Fetched(original, at) + [BranchTo(instr + size, at + 1)]
  }

  /** A new patch is right, and disturbs no earlier one. */
  lemma PatchStep<S(!new), V>(isa: Isa<S, V>, original: seq<Word>, code: seq<Word>, injected: seq<Word>,
                              patches: map<nat, nat>, starts: set<nat>, at: nat)
    requires Disassembly(isa, original, starts) && Patched(isa, original, code, injected, patches)
    requires at in starts && at !in patches && patches.Keys <= starts
    ensures Patched(isa, original, WithPatch(isa, original, code, injected, at), injected, patches[at := |code|])
  {
    var code', patches' := WithPatch(isa, original, code, injected, at), patches[at := |code|];
    NewPatchStands(isa, original, code, injected, at);
    hide WithPatch, PatchedAt;
    forall other | other in patches ensures PatchedAt(isa, original, code', injected, other, patches[other]) {
      OtherPatchStands(isa, original, code, code', injected, other, patches[other]);
    }
    forall w | 0 <= w < |original| && !Touched(isa, original, patches', w) ensures code'[w] == original[w] {
      assert !Touched(isa, original, patches, w);
    }
  }

  lemma NewPatchStands<S(!new), V>(isa: Isa<S, V>, original: seq<Word>, code: seq<Word>, injected: seq<Word>, at: nat)
    requires isa.Fetches(original, at) && |original| <= |code|
    ensures var code' := WithPatch(isa, original, code, injected, at);
            && PatchedAt(isa, original, code', injected, at, |code|) && |code| <= |code'|
            && forall w :: 0 <= w < |code| && w != at && (w != at + 1 || !isa.long(original[at])) ==>
                code'[w] == code[w]
  {
    hide BranchTo;
    var code' := WithPatch(isa, original, code, injected, at);
    var size, instr := isa.SizeAt(original, at), |code| + |injected|;
    assert code'[|code|..instr] == injected;
    assert code'[instr..instr + size] == isa.Fetched(original, at);
    assert code'[instr + size] == BranchTo(instr + size, at + 1);
  }

  lemma OtherPatchStands<S(!new), V>(isa: Isa<S, V>, original: seq<Word>, code: seq<Word>, code': seq<Word>,
                                     injected: seq<Word>, at: nat, tramp: nat)
    requires at < |original| <= |code| <= |code'| && PatchedAt(isa, original, code, injected, at, tramp)
    requires forall w :: |original| <= w < |code| ==> code'[w] == code[w]
    requires code'[at] == code[at] && (isa.long(original[at]) ==> code'[at + 1] == code[at + 1])
    ensures PatchedAt(isa, original, code', injected, at, tramp)
  {
    hide BranchTo;
    var n := tramp + |injected|;
    assert code'[tramp..n] == code[tramp..n];
    assert code'[n..n + isa.SizeAt(original, at)] == code[n..n + isa.SizeAt(original, at)];
  }

  class Patcher<!S(!new), !V> {
    const isa: Isa<S, V>
    var psec: seq<Word>           // the section's data
    var text: seq<Word>           // a copy of the code as it was, patched in place
    ghost var original: seq<Word>
    ghost var patches: map<nat, nat>

    constructor (isa: Isa<S, V>, code: seq<Word>)
      ensures this.isa == isa && psec == text == original == code && patches == map[]
    {
      this.isa := isa;
      psec, text, original, patches := code, code, code, map[];
    }

    /** What the code will be once text is written back over the section. */
    ghost function Merged(): seq<Word>
      reads this
      requires |text| <= |psec|
    {
      text + psec[|text|..]
    }

    /** addInstrumentation */
    method AddInstrumentation(base: nat, instr: Instr, injected: seq<Word>)
      requires 1 <= |instr.data| <= 2 && instr.offset + |instr.data| <= |text| <= |psec|
      modifies this`psec, this`text
      ensures |text| == old(|text|) <= |psec|
      ensures text == (var jump := old(text)[instr.offset := Branch(UnsignedField(4 * instr.offset,
          base + 4 * old(|psec|)))];
                       if |instr.data| == 2 then jump[instr.offset + 1 := S_NOP] else jump)
      ensures psec == old(psec) + injected + instr.data
                      + [Branch(UnsignedField(base + 4 * (old(|psec|) + |injected| + |instr.data|),
                                              4 * (instr.offset + 1)))]
    {
      var offset := 4 * instr.offset;
      var jumpto := Branch(UnsignedField(offset, base + 4 * |psec|));
      text := text[instr.offset := jumpto];
      if |instr.data| == 2 {
        text := text[instr.offset + 1 := S_NOP];
      }
      psec := psec + injected;
      psec := psec + instr.data;
      var jumpback := Branch(UnsignedField(base + 4 * |psec|, offset + 4));
      psec := psec + [jumpback];
    }

    /** One more instruction patched, the code after merging seen as a whole. */
    method PatchOne(base: nat, instr: Instr, injected: seq<Word>, ghost starts: set<nat>)
      requires |text| == |original| <= |psec| && base == 0 && patches.Keys <= starts
      requires Patched(isa, original, Merged(), injected, patches) && Disassembly(isa, original, starts)
      requires instr.offset in starts && instr.offset !in patches
      requires isa.Fetches(original, instr.offset) && instr.data == isa.Fetched(original, instr.offset)
      modifies this`psec, this`text, this`patches
      ensures |text| == |original| <= |psec|
      ensures Patched(isa, original, Merged(), injected, patches)
      ensures patches == old(patches)[instr.offset := old(|psec|)]
    {
      hide Patched, Disassembly, UnsignedField, Branch;
      ghost var before, n := Merged(), |psec|;
      ghost var text0, psec0 := text, psec;
      PatchStep(isa, original, before, injected, patches, starts, instr.offset);
      AddInstrumentation(base, instr, injected);
      MergedStep(isa, original, text0, psec0, text, psec, injected, instr.offset);
      patches := patches[instr.offset := n];
    }

    method PatchIfChosen(instructions: seq<Instr>, chosen: set<nat>, injected: seq<Word>, i: nat)
      requires i < |instructions| && instructions == Instructions(isa, original, 0)
      requires Decoded(isa, original, instructions, 0)
      requires Disassembly(isa, original, Offsets(instructions)) && |text| == |original| <= |psec|
      requires Patched(isa, original, Merged(), injected, patches)
      requires patches.Keys == ChosenOffsets(instructions, chosen, i)
      modifies this`psec, this`text, this`patches
      ensures |text| == |original| <= |psec|
      ensures Patched(isa, original, Merged(), injected, patches)
      ensures patches.Keys == ChosenOffsets(instructions, chosen, i + 1)
    {
      FirstIsAtZero(isa, original, instructions, i);
      OneMoreChosen(isa, original, instructions, chosen, i);
      hide *;
      var base := 0;
      if i == 0 {
        base := instructions[i].offset;
      }
      if i in chosen {
        PatchOne(base, instructions[i], injected, Offsets(instructions));
      }
    }

    /** Patches the chosen instructions, then writes the patched text over the section's start. */
    method Instrument(instructions: seq<Instr>, chosen: set<nat>, injected: seq<Word>)
      requires psec == text == original && patches == map[]
      requires instructions == Instructions(isa, original, 0)
      modifies this
      ensures original == old(original)
      ensures Patched(isa, original, psec, injected, patches)
      ensures patches.Keys == ChosenOffsets(instructions, chosen, |instructions|)
    {
      InstructionsAreDecoded(isa, original, 0);
      DecodedIsDisassembly(isa, original, instructions);
      hide Patched, Disassembly, Decoded, Instructions, Offsets;
      assert Patched(isa, original, Merged(), injected, patches)
          by { NothingPatched(isa, original, Merged(), injected); }
      for i := 0 to |instructions|
        invariant |text| == |original| <= |psec| && original == old(original)
        invariant Patched(isa, original, Merged(), injected, patches)
        invariant patches.Keys == ChosenOffsets(instructions, chosen, i)
      {
        PatchIfChosen(instructions, chosen, injected, i);
      }
      Merge();
    }

    /** newtext: the section's data with the patched text copied over its start. */
    method Merge()
      requires |text| <= |psec|
      modifies this`psec
      ensures psec == old(Merged())
    {
      var newtext := new Word[|psec|](k requires 0 <= k < |psec| reads this => psec[k]);
      for i := 0 to |text|
        invariant newtext.Length == |psec| && psec == old(psec) && text == old(text)
        invariant newtext[..i] == text[..i] && newtext[i..] == psec[i..]
      {
        newtext[i] := text[i];
      }
      psec := newtext[..];
    }
  }

  /** Patching text and appending to the section is the patch on the merged code. */
  lemma MergedStep<S(!new), V>(isa: Isa<S, V>, original: seq<Word>, text: seq<Word>, psec: seq<Word>,
                               text': seq<Word>, psec': seq<Word>, injected: seq<Word>, at: nat)
    requires isa.Fetches(original, at) && |text| == |original| <= |psec|
    requires text' == (var jump := text[at := BranchTo(at, |psec|)];
                       if isa.SizeAt(original, at) == 2 then jump[at + 1 := S_NOP] else jump)
    requires psec' == psec + injected + isa.Fetched(original, at)
                      + [BranchTo(|psec| + |injected| + isa.SizeAt(original, at), at + 1)]
    ensures text' + psec'[|text'|..] == WithPatch(isa, original, text + psec[|text|..], injected, at)
  {
    hide BranchTo;
    var n := |text|;
    assert psec'[n..] == psec[n..] + injected + isa.Fetched(original, at)
                      + [BranchTo(|psec| + |injected| + isa.SizeAt(original, at), at + 1)];
  }

  lemma NothingPatched<S(!new), V>(isa: Isa<S, V>, original: seq<Word>, code: seq<Word>, injected: seq<Word>)
    requires code == original
    ensures Patched(isa, original, code, injected, map[])
  {
  }

  ghost function ChosenOffsets(instructions: seq<Instr>, chosen: set<nat>, n: nat): set<nat>
    requires n <= |instructions|
  {
    set i | 0 <= i < n && i in chosen :: instructions[i].offset
  }

  lemma FirstIsAtZero<S(!new), V>(isa: Isa<S, V>, original: seq<Word>, instructions: seq<Instr>, i: nat)
    requires instructions == Instructions(isa, original, 0) && i < |instructions|
    ensures instructions[0].offset == 0
  {
  }

  lemma OneMoreChosen<S(!new), V>(isa: Isa<S, V>, original: seq<Word>, instructions: seq<Instr>, chosen: set<nat>,
                                  i: nat)
    requires i < |instructions| && Decoded(isa, original, instructions, 0)
    ensures isa.Fetches(original, instructions[i].offset)
    ensures instructions[i].data == isa.Fetched(original, instructions[i].offset)
    ensures instructions[i].offset in Offsets(instructions)
    ensures instructions[i].offset !in ChosenOffsets(instructions, chosen, i)
    ensures ChosenOffsets(instructions, chosen, i) <= Offsets(instructions)
    ensures ChosenOffsets(instructions, chosen, i + 1)
            == if i in chosen then ChosenOffsets(instructions, chosen, i) + {instructions[i].offset}
                else ChosenOffsets(instructions, chosen, i)
  {
  }
}
