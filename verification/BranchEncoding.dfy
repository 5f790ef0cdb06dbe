/** The 16-bit word displacement of S_BRANCH, and how it is kept right when code is inserted. */
module BranchEncoding {
  import opened PowersOfTwo

  const S_BRANCH := 0xbf82_0000
  const S_NOP := 0xbf80_0000

  /** The displacement field is two's complement. */
  function Signed16(field: nat): int
    requires field < 0x1_0000
  {
    if field < 0x8000 then field else field - 0x1_0000
  }

  function ToInt32(x: int): int {
    var w := x % TWO32;
    if w < TWO32 / 2 then w else w - TWO32
  }

  /** S_BRANCH: PC = PC + 4 + signed displacement * 4. */
  function Destination(branch: int, field: nat): int
    requires field < 0x1_0000
  {
    branch + 4 + 4 * Signed16(field)
  }

  /** create_s_branch: the difference is an unsigned 32-bit word. */
  function UnsignedField(branch: nat, target: nat): (field: nat)
    ensures field < 0x1_0000
  {
    ((target - branch - 4) % TWO32) / 4 % 0x1_0000
  }

  /** update_for_insertion: a signed 32-bit difference, shifted right and cut to 16 bits. */
  function SignedField(branch: nat, target: nat): (field: nat)
    ensures field < 0x1_0000
  {
    ToInt32(ToInt32(target) - 4 - ToInt32(branch)) / 4 % 0x1_0000
  }

  ghost predicate InReach(branch: int, target: int) {
    (target - branch) % 4 == 0 && -0x8000 <= (target - branch - 4) / 4 < 0x8000
  }

  lemma MoreLaps(x: int, y: int, k: int)
    requires x == y + k * TWO32
    ensures x / 4 % 0x1_0000 == y / 4 % 0x1_0000
  {
    assert x / 4 == y / 4 + k * 0x4000_0000;
  }

  lemma Laps(x: int)
    ensures exists k: int :: x % TWO32 == x + k * TWO32
    ensures exists k: int :: ToInt32(x) == x + k * TWO32
  {
    var q := x / TWO32;
    assert x % TWO32 == x + (-q) * TWO32;
    assert ToInt32(x) == x + (if x % TWO32 < TWO32 / 2 then -q else -q - 1) * TWO32;
  }

  /** Both forms agree, whatever the sign and the alignment of the distance. */
  lemma FieldsAgree(branch: nat, target: nat)
    ensures SignedField(branch, target) == UnsignedField(branch, target)
    ensures SignedField(branch, target) == (target - branch - 4) / 4 % 0x1_0000
  {
    var d := target - branch - 4;
    Laps(target);
    Laps(branch);
    var kt: int :| ToInt32(target) == target + kt * TWO32;
    var kb: int :| ToInt32(branch) == branch + kb * TWO32;
    var s := ToInt32(target) - 4 - ToInt32(branch);
    Laps(s);
    var ks: int :| ToInt32(s) == s + ks * TWO32;
    Laps(d);
    var kd: int :| d % TWO32 == d + kd * TWO32;
    hide ToInt32;
    MoreLaps(d % TWO32, d, kd);
    assert ToInt32(s) == d + (kt - kb + ks) * TWO32;
    MoreLaps(ToInt32(s), d, kt - kb + ks);
  }

  /** The encoded branch arrives at its target exactly when the distance is a number of words
      that 16 bits hold. */
  lemma ArrivesExactlyInReach(branch: nat, target: nat)
    ensures Destination(branch, SignedField(branch, target)) == target <==> InReach(branch, target)
    ensures Destination(branch, UnsignedField(branch, target)) == target <==> InReach(branch, target)
  {
    FieldsAgree(branch, target);
    hide SignedField, UnsignedField;
    var w := (target - branch - 4) / 4;
    if -0x8000 <= w < 0x8000 {
      assert w % 0x1_0000 == if w < 0 then w + 0x1_0000 else w;
    }
  }

  // ----- Inserting code

  /** A byte of the code: the original byte at a position, or an inserted one. */
  datatype Byte = Original(at: nat) | Inserted

  datatype Insertion = Insertion(loc: nat, size: nat)

  function Insert(code: seq<Byte>, ins: Insertion): seq<Byte>
    requires ins.loc <= |code|
  {
    code[..ins.loc] + seq(ins.size, _ => Inserted) + code[ins.loc..]
  }

  /** Arriving at target, execution runs through inserted bytes only and then into the original
      byte: so inserted code at a branch target runs before it. */
  ghost predicate LeadsTo(code: seq<Byte>, target: nat, original: nat) {
    exists p ::
      target <= p < |code| && code[p] == Original(original) && forall q :: target <= q < p ==> code[q] == Inserted
  }

  lemma InsertedLeads(code: seq<Byte>, ins: Insertion, target: nat, original: nat)
    requires ins.loc <= |code| && LeadsTo(code, target, original)
    ensures LeadsTo(Insert(code, ins), if ins.loc < target then target + ins.size else target, original)
  {
    var p :|
      target <= p < |code| && code[p] == Original(original) && forall q :: target <= q < p ==> code[q] == Inserted;
    var after := Insert(code, ins);
    var p', t' := if ins.loc <= p then p + ins.size else p, if ins.loc < target then target + ins.size else target;
    assert after[p'] == Original(original);
    forall q | t' <= q < p' ensures after[q] == Inserted {
      if ins.loc + ins.size <= q { assert after[q] == code[q - ins.size]; }
    }
  }

  class MyBranchInsn {
    var branchAddr: nat
    var targetAddr: nat
    var simm16: nat

    constructor (branch: nat, target: nat)
      ensures branchAddr == branch && targetAddr == target && simm16 == UnsignedField(branch, target)
    {
      branchAddr, targetAddr, simm16 := branch, target, UnsignedField(branch, target);
    }

    /** The branch is where the original branch is, and its target leads to the original target. */
    ghost predicate Follows(code: seq<Byte>, branch: nat, target: nat)
      reads this
    {
      && branchAddr < |code| && code[branchAddr] == Original(branch) && LeadsTo(code, targetAddr, target)
      && simm16 == SignedField(branchAddr, targetAddr)
    }

    method UpdateForMove(offset: nat)
      requires simm16 == SignedField(branchAddr, targetAddr)
      modifies this
      ensures branchAddr == old(branchAddr) + offset && targetAddr == old(targetAddr) + offset
      ensures simm16 == old(simm16) == SignedField(branchAddr, targetAddr)
    {
      FieldsAgree(branchAddr, targetAddr);
      branchAddr := branchAddr + offset;
      targetAddr := targetAddr + offset;
      FieldsAgree(branchAddr, targetAddr);
    }

    method UpdateForInsertion(insertLoc: nat, insertSize: nat)
      modifies this
      ensures branchAddr == old(branchAddr) + (if insertLoc <= old(branchAddr) then insertSize else 0)
      ensures targetAddr == old(targetAddr) + (if insertLoc < old(targetAddr) then insertSize else 0)
      ensures simm16 == SignedField(branchAddr, targetAddr)
    {
      if insertLoc <= branchAddr {
        branchAddr := branchAddr + insertSize;
      }
      if insertLoc < targetAddr {
        targetAddr := targetAddr + insertSize;
      }
      if branchAddr < targetAddr {
        simm16 := ToInt32(ToInt32(targetAddr) - 4 - ToInt32(branchAddr)) / 4 % 0x1_0000;
      } else {
        simm16 := ToInt32(ToInt32(targetAddr) - 4 - ToInt32(branchAddr)) / 4 % 0x1_0000;
      }
    }
  }

  function AfterAll(code: seq<Byte>, inserts: seq<Insertion>): seq<Byte> {
    if inserts == [] then code
    else
      var last := inserts[|inserts| - 1];
      var before := AfterAll(code, inserts[..|inserts| - 1]);
      if last.loc <= |before| then Insert(before, last) else before
  }

  /** Every insertion falls within the code as it then is. */
  ghost predicate Within(code: seq<Byte>, inserts: seq<Insertion>) {
    forall n :: 0 <= n < |inserts| ==> inserts[n].loc <= |AfterAll(code, inserts[..n])|
  }

  /** After any sequence of insertions the branch still leads to the instruction it led to, and its
      encoding arrives there as long as it is in reach, the same as a branch created afresh. */
  method KeepBranch(insn: MyBranchInsn, code: seq<Byte>, branch: nat, target: nat, inserts: seq<Insertion>)
    requires insn.Follows(code, branch, target) && Within(code, inserts)
    modifies insn
    ensures insn.Follows(AfterAll(code, inserts), branch, target)
    ensures insn.simm16 == UnsignedField(insn.branchAddr, insn.targetAddr)
    ensures insn.simm16 < 0x1_0000
    ensures Destination(insn.branchAddr, insn.simm16) == insn.targetAddr <==> InReach(insn.branchAddr, insn.targetAddr)
  {
    hide SignedField, UnsignedField, LeadsTo;
    assert inserts[..0] == [];
    for n := 0 to |inserts|
      invariant insn.Follows(AfterAll(code, inserts[..n]), branch, target)
    {
      ghost var before := AfterAll(code, inserts[..n]);
      assert inserts[..n + 1][..n] == inserts[..n];
      InsertedLeads(before, inserts[n], insn.targetAddr, target);
      insn.UpdateForInsertion(inserts[n].loc, inserts[n].size);
    }
    assert inserts[..|inserts|] == inserts;
    FieldsAgree(insn.branchAddr, insn.targetAddr);
    ArrivesExactlyInReach(insn.branchAddr, insn.targetAddr);
  }
}
