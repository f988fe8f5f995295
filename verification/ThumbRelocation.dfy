/**
 * The Thumb relocator's rewrites as a transformation of instructions (relocator-thumb.c), and when it preserves
 * meaning.
 */
module ThumbRelocation {
  import opened A64Encoding
  import opened Numbers
  import opened Wrappers
  import opened ThumbMachine
  import opened ThumbExpansion
  import M = A64Machine

  // The instructions the relocator copies as they are.
  predicate Copied(i: Inst) {
    match i
    case MovReg(_, _) => true
    case AddReg(_, m) => m != 15
    case LdrImm(_, _, _) => true
    case StrImm(_, _, _) => true
    case PushR7 => true
    case PopR7 => true
    case ReadsPc => true
    case Other => true
    case _ => false
  }

  // ----- the offsets of the wide branches, as the rewrites put their bits together -----

  // B T4: the sign is lost, and I1 and I2 go to bits 18 and 19.
  function JumpField(imm: bv24): bv21 {
    ((imm & 0x1f_ffff) as bv21) | ((((imm >> 22) ^ (imm >> 23)) & 1) as bv21 << 17)
    | ((((imm >> 21) ^ (imm >> 23)) & 1) as bv21 << 18)
  }

  // BL: so do they, and the sign goes to bit 20.
  function LinkField(imm: bv24): bv21 {
    ((imm & 0x1f_ffff) as bv21) | (((imm >> 22) & 1) as bv21 << 17) | (((imm >> 21) & 1) as bv21 << 18)
    | (((imm >> 23) & 1) as bv21 << 19)
  }

  // BLX: I1 and I2 are swapped, and H is dropped.
  function SwappedField(imm: bv24): bv24 {
    (imm & 0x9f_fffe) | ((imm >> 1) & 0x20_0000) | ((imm << 1) & 0x40_0000)
  }

  // The address a rewrite computes for the instruction at p. Displacements are not sign-extended and the PC of an ADR
  // is not aligned.
  function Address(i: Inst, p: int): U32 {
    match i
    case CmpBr(_, _, imm) => Wrap32(p + 4 + 2 * (imm as int))
    case CondBrNarrow(_, imm) => Wrap32(p + 4 + 2 * (imm as int))
    case CondBrWide(_, imm) => Wrap32(p + 4 + 2 * (imm as int))
    case BrNarrow(imm) => Wrap32(p + 4 + 2 * (imm as int))
    case BrWide(link, exchange, imm) =>
      if exchange then Wrap32(Align4(p + 4) + 2 * Signed24(SwappedField(imm)))
      else Wrap32(p + 4 + 2 * if link then LinkField(imm) as int else JumpField(imm) as int)
    case BlxUndefined(imm) => Wrap32(Align4(p + 4) + 2 * Signed24(SwappedField(imm)))
    case LdrLit(_, add, imm) => LiteralAddress(add, imm, p)
    case Adr(_, add, imm) => Wrap32(p + 4 + Displacement(add, imm))
    case AdrUnpredictable(_, add, imm) => Wrap32(p + 4 + Displacement(add, imm))
    case _ => Wrap32(p + 4)
  }

  // The literal for a jump to Thumb code.
  function ThumbPointer(n: U32): U32 {
    Wrap32(n + 1)
  }

  // ldr reg, [reg], as thumb_writer_put_ldr_reg_reg_offset emits it.
  function LdrSelf(reg: bv4): seq<Half> {
    if Low(reg) then TransferT1(true, reg, reg, 0) else TransferT3(true, reg, reg, 0)
  }

  // The branch standing for a conditional one: the same with displacement 0, or 2 for the wide form.
  function CmpBrStub(h1: Half): (hs: seq<Half>)
    ensures |hs| == 1
  {
    [h1 & 0xfd07]
  }

  function CondBrNarrowStub(h1: Half): (hs: seq<Half>)
    ensures |hs| == 1
  {
    [h1 & 0xff00]
  }

  function CondBrWideStub(h1: Half, h2: Half): (hs: seq<Half>)
    ensures |hs| == 2
  {
    [h1 & 0xfbc0, (h2 & 0xd000) | 1]
  }

  // A conditional branch over a B over a jump, all at a multiple of four after `pad`.
  function Branching(pad: bool, branch: seq<Half>, target: U32, a: int): seq<bv8> {
    var hs := Nops(pad) + branch + [BImm(6)];
    Code(hs) + LdrRegBlock(15, ThumbPointer(target), a + 2 * |hs|)
  }

  // A return address behind the instruction at p into LR, and a jump.
  function LinkBlock(p: int, lit: U32, a: int): seq<bv8> {
    var link := LdrBRegBlock(14, Wrap32(p + 5), a);
    link + LdrRegBlock(15, lit, a + |link|)
  }

  // add Rdn, r7
  function AddStub(h1: Half): Half {
    (h1 & 0xff87) | 0x38
  }

  // ADD of the PC: R7 saved, the PC's value into it, the addition, R7 restored.
  function AddBlock(h1: Half, pc: U32, a: int): seq<bv8> {
    Code([0xb480]) + LdrBRegBlock(7, pc, a + 2) + Code([AddStub(h1), 0xbc80])
  }

  // The instruction's halfwords.
  function Halves(h1: Half, h2: Half): (hs: seq<Half>)
    ensures 1 <= |hs| <= 2
  {
    if IsThumb2(h1) then [h1, h2] else [h1]
  }

  // What the instruction (h1, h2) at p becomes at a.
  function Expand(h1: Half, h2: Half, p: int, a: int): seq<bv8> {
    var i := Decode(h1, h2);
    var to := Address(i, p);
    match i
    case CmpBr(_, _, _) => Branching(a % 4 != 0, CmpBrStub(h1), to, a)
    case CondBrNarrow(_, _) => Branching(a % 4 != 0, CondBrNarrowStub(h1), to, a)
    case CondBrWide(_, _) => Branching(a % 4 == 0, CondBrWideStub(h1, h2), to, a)
    case MiscControl => Branching(a % 4 == 0, CondBrWideStub(h1, h2), Wrap32(p + 4 + 2 * (Imm20(h1, h2) as int)), a)
    case BrNarrow(_) => LdrRegBlock(15, ThumbPointer(to), a)
    case BrWide(link, exchange, _) =>
      if !link then LdrRegBlock(15, ThumbPointer(to), a)
      else LinkBlock(p, if exchange then to else ThumbPointer(to), a)
    case BlxUndefined(_) => LinkBlock(p, to, a)
    case LdrLit(t, _, _) => LdrBRegBlock(t, to, a) + Code(LdrSelf(t))
    case Adr(d, _, _) => LdrBRegBlock(d, to, a)
    case AdrUnpredictable(d, _, _) => LdrBRegBlock(d, to, a)
    case _ => if Copied(i) then Code(Halves(h1, h2)) else AddBlock(h1, to, a)
  }

  // ----- what meaning is preserved -----

  // The instruction, at p, has a meaning, and does not write over its own expansion at a.
  ghost predicate Meant(exec: Exec, h1: Half, h2: Half, p: int, a: int, s: State) {
    var e := Execute(exec, Decode(h1, h2), h1, h2, s.(pc := p));
    e.Some? && M.BytesAt(e.value.mem, a, Expand(h1, h2, p, a))
  }

  // k steps from a do to registers, flags and memory what the instruction does from p, and go where it branches or
  // else just past the expansion.
  ghost predicate Runs(exec: Exec, h1: Half, h2: Half, p: int, a: int, s: State, k: nat) {
    var i := Decode(h1, h2);
    && Run(exec, s.(pc := a), k).Some? && Execute(exec, i, h1, h2, s.(pc := p)).Some?
    && var t := Run(exec, s.(pc := a), k).value;
       var e := Execute(exec, i, h1, h2, s.(pc := p)).value;
       && t == e.(pc := t.pc)
       && t.pc == if Leaves(exec, i, h1, h2, s.(pc := p)) then e.pc else a + |Expand(h1, h2, p, a)|
  }

  // Where the rewrites are right: branches forward, B.W and BL up to 4 MiB, BLX where I1 and I2 agree, loads not into
  // the PC, and ADR at a multiple of four; a copy where the PC is neither read nor, by an addition, written.
  predicate InDomain(i: Inst, p: int) {
    match i
    case CmpBr(_, _, _) => true
    case CondBrNarrow(_, imm) => Signed8(imm) >= 0
    case CondBrWide(_, imm) => Signed20(imm) >= 0
    case BrNarrow(imm) => Signed11(imm) >= 0
    case BrWide(_, exchange, imm) => if exchange then (imm >> 22) & 1 == (imm >> 21) & 1 else imm >> 21 == 0
    case LdrLit(t, _, _) => t != 15
    case Adr(_, _, _) => p % 4 == 0
    case MovReg(_, m) => m != 15
    case AddReg(d, m) => m != 15 && d != 15
    case AdrUnpredictable(_, _, _) => false
    case BlxUndefined(_) => false
    case MiscControl => false
    case ReadsPc => false
    case _ => true
  }

  // A miscellaneous control instruction is rewritten as if it were a B T3; that is right exactly if its fields are
  // those of the branch put in its place.
  predicate Preserved(h1: Half, h2: Half, p: int) {
    if Decode(h1, h2).MiscControl? then CondBrWideStub(h1, h2) == [h1, h2] else InDomain(Decode(h1, h2), p)
  }

  // ----- the branching expansions run as meant -----

  // A conditional branch, as it stands in an expansion, taken to two bytes past the next instruction.
  ghost predicate SkipsB(branch: seq<Half>, b: int) {
    && branch != [] && 2 * |branch| == Size(branch[0])
    && var j := Decode(branch[0], branch[|branch| - 1]);
       (j.CmpBr? || j.CondBrNarrow? || j.CondBrWide?) && Target(j, b) == Wrap32(b + 2 * |branch| + 2)
  }

  lemma StepsBranch(exec: Exec, s: State, a: int, hs: seq<Half>, i: nat, branch: seq<Half>)
    requires M.BytesAt(s.mem, a, Code(hs)) && Has(hs, i, branch) && s.pc == a + 2 * i && s.thumb
    requires SkipsB(branch, s.pc) && 0 <= s.pc && s.pc + 8 <= TWO_32
    ensures var j := Decode(branch[0], branch[|branch| - 1]);
            Step(exec, s) == Some(s.(pc := s.pc + 2 * |branch| + if Taken(j, s) then 2 else 0))
  {
    hide DecodeNarrow, DecodeWide, IsThumb2, Code, Step, M.BytesAt, Execute, Taken, Target;
    var j := Decode(branch[0], branch[|branch| - 1]);
    assert hs[i] == branch[0] && hs[i + |branch| - 1] == branch[|branch| - 1];
    StepsCode(exec, s, a, hs, i);
    BranchExecutes(exec, j, branch[0], if |branch| == 1 then 0 else branch[1], s);
    assert Target(j, s.pc) == s.pc + 2 * |branch| + 2;
  }

  lemma BranchExecutes(exec: Exec, i: Inst, h1: Half, h2: Half, s: State)
    requires i.CmpBr? || i.CondBrNarrow? || i.CondBrWide?
    ensures Execute(exec, i, h1, h2, s) == Some(s.(pc := if Taken(i, s) then Target(i, s.pc) else s.pc + Size(h1)))
  {
    hide Taken, Target, Size;
  }

  lemma JumpRuns(exec: Exec, s: State, target: U32, l: int)
    requires M.BytesAt(s.mem, l, LdrRegBlock(15, ThumbPointer(target), l)) && s.pc == l && s.thumb
    requires target % 2 == 0 && l % 2 == 0 && 0 <= l && l + 12 <= TWO_32
    ensures Step(exec, s) == Some(s.(pc := target))
  {
    hide LdrRegBlock, Step, M.BytesAt;
    LdrRegBlockLoads(exec, 15, ThumbPointer(target), s, l);
  }

  // After the padding: the branch, then the jump or the B behind it.
  lemma BranchRuns(exec: Exec, s: State, a: int, hs: seq<Half>, n: nat, branch: seq<Half>, target: U32)
    requires M.BytesAt(s.mem, a, Code(hs)) && s.pc == a + 2 * n && s.thumb
    requires Has(hs, n, branch) && Has(hs, n + |branch|, [BImm(6)]) && |hs| == n + |branch| + 1
    requires var l := a + 2 * |hs|;
             M.BytesAt(s.mem, l, LdrRegBlock(15, ThumbPointer(target), l)) && l % 2 == 0 && 0 <= a && l + 12 <= TWO_32
    requires branch != [] && SkipsB(branch, s.pc) && target % 2 == 0
    ensures var j := Decode(branch[0], branch[|branch| - 1]);
            Run(exec, s, 2) == Some(s.(pc := if Taken(j, s) then target else a + 2 * |hs| + 8))
  {
    hide Decode, IsThumb2, Code, Step, M.BytesAt, LdrRegBlock, BImm, Taken, Target, Has, Run, Wrap32, ThumbPointer,
      SkipsB;
    var j := Decode(branch[0], branch[|branch| - 1]);
    StepsBranch(exec, s, a, hs, n, branch);
    var s1 := s.(pc := s.pc + 2 * |branch| + if Taken(j, s) then 2 else 0);
    RunTwo(exec, s, s1);
    if Taken(j, s) {
      JumpRuns(exec, s1, target, a + 2 * |hs|);
    } else {
      StepsB(exec, s1, a, hs, n + |branch|, 6);
      assert Wrap32(s1.pc + 10) == s1.pc + 10;
    }
  }

  lemma BranchingRuns(exec: Exec, s: State, a: int, pad: bool, branch: seq<Half>, target: U32) returns (k: nat)
    requires M.BytesAt(s.mem, a, Branching(pad, branch, target, a)) && s.pc == a && s.thumb
    requires SkipsB(branch, a + 2 * |Nops(pad)|) && target % 2 == 0
    requires (a + 2 * |Nops(pad)| + 2 * |branch| + 2) % 4 == 0 && 0 <= a && a + 20 <= TWO_32
    ensures var j := Decode(branch[0], branch[|branch| - 1]);
            Run(exec, s, k) == Some(s.(pc := if Taken(j, s) then target else a + |Branching(pad, branch, target, a)|))
  {
    hide Decode, IsThumb2, Code, Step, M.BytesAt, LdrRegBlock, BImm, Taken, Target, Has, Run, ThumbPointer;
    var hs, n := Nops(pad) + branch + [BImm(6)], |Nops(pad)|;
    var l := a + 2 * n + 2 * |branch| + 2;
    assert a + 2 * |hs| == l;
    Fourfold(l);
    M.BytesAtSplit(s.mem, a, Code(hs), LdrRegBlock(15, ThumbPointer(target), l));
    LdrPcLength(ThumbPointer(target), l);
    BranchingParts(pad, branch);
    PadRuns(exec, s, a, hs, pad);
    var s1 := s.(pc := a + 2 * n);
    TakenAnywhere(Decode(branch[0], branch[|branch| - 1]), s, s1);
    BranchRuns(exec, s1, a, hs, n, branch, target);
    RunAdds(exec, s, n, 2);
    k := n + 2;
  }

  lemma Fourfold(l: int)
    requires l % 4 == 0
    ensures l % 2 == 0
  {
    var q := l / 4;
    assert l == 2 * (2 * q);
  }

  lemma PadRuns(exec: Exec, s: State, a: int, hs: seq<Half>, pad: bool)
    requires M.BytesAt(s.mem, a, Code(hs)) && (pad ==> Has(hs, 0, [NOP])) && s.pc == a && s.thumb
    ensures Run(exec, s, |Nops(pad)|) == Some(s.(pc := a + 2 * |Nops(pad)|))
  {
    hide Step, Code, M.BytesAt;
    if pad {
      StepsNop(exec, s, a, hs, 0);
      RunOne(exec, s);
    }
  }

  lemma RunTwo(exec: Exec, s: State, s': State)
    requires Step(exec, s) == Some(s')
    ensures Run(exec, s, 2) == Step(exec, s')
  {
    hide Step;
    RunOne(exec, s');
  }

  lemma BranchingParts(pad: bool, branch: seq<Half>)
    ensures var hs := Nops(pad) + branch + [BImm(6)];
            Has(hs, |Nops(pad)|, branch) && Has(hs, |Nops(pad)| + |branch|, [BImm(6)]) && (pad ==> Has(hs, 0, [NOP]))
  {
    hide BImm;
  }

  // Whether a conditional branch is taken does not depend on where it stands.
  lemma TakenAnywhere(i: Inst, s: State, s': State)
    requires s' == s.(pc := s'.pc)
    ensures Taken(i, s') == Taken(i, s)
  {
  }

  // ----- each rewrite -----

  lemma CmpBrStubDecodes(h1: Half, h2: Half)
    requires Decode(h1, h2).CmpBr?
    ensures var i, h := Decode(h1, h2), CmpBrStub(h1)[0];
            !IsThumb2(h) && Decode(h, h) == CmpBr(i.nonzero, i.rn, 0)
  {
  }

  lemma CondBrNarrowStubDecodes(h1: Half, h2: Half)
    requires Decode(h1, h2).CondBrNarrow?
    ensures var i, h := Decode(h1, h2), CondBrNarrowStub(h1)[0];
            !IsThumb2(h) && Decode(h, h) == CondBrNarrow(i.cond, 0)
  {
  }

  lemma CondBrWideStubDecodes(h1: Half, h2: Half)
    requires Decode(h1, h2).CondBrWide?
    ensures var i, hs := Decode(h1, h2), CondBrWideStub(h1, h2);
            IsThumb2(hs[0]) && Decode(hs[0], hs[1]) == CondBrWide(i.cond, 1)
  {
    hide Imm24, AdrImm12, RtField, Imm12Field, Imm20, DecodeNarrow;
    NarrowNotWide(h1);
    StubField(h1, h2);
  }

  lemma NarrowNotWide(h1: Half)
    ensures !DecodeNarrow(h1).CondBrWide?
  {
  }

  lemma StubField(h1: Half, h2: Half)
    ensures Imm20(h1 & 0xfbc0, (h2 & 0xd000) | 1) == 1
  {
  }

  lemma LdrSelfDecodes(reg: bv4)
    requires reg != 15
    ensures var hs := LdrSelf(reg);
            && |hs| == (if Low(reg) then 1 else 2) && IsThumb2(hs[0]) == !Low(reg)
            && Decode(hs[0], hs[|hs| - 1]) == LdrImm(reg, reg, 0)
  {
    hide DecodeNarrow, DecodeWide, TransferT1, TransferT3, IsThumb2;
    TransferT1Exact(true, reg, reg, 0);
    TransferT3Exact(true, reg, reg, 0);
    SelfLengths(reg);
  }

  lemma SelfLengths(reg: bv4)
    requires reg != 15
    ensures Low(reg) ==> |TransferT1(true, reg, reg, 0)| == 1
    ensures |TransferT3(true, reg, reg, 0)| == 2
  {
  }

  // A branch with an immediate that has a rewrite.
  predicate Branches(i: Inst) {
    i.CmpBr? || i.CondBrNarrow? || i.CondBrWide? || i.BrNarrow? || i.BrWide?
  }

  // Put together by a rewrite, a displacement is the branch's own exactly in the domain.
  lemma AddressExact(i: Inst, p: int)
    requires Branches(i) && (i.BrWide? && i.exchange ==> i.imm24 & 1 == 0)
    ensures Address(i, p) == Target(i, p) <==> InDomain(i, p)
  {
    hide JumpField, LinkField, SwappedField, Signed24, Align4;
    match i {
      case CmpBr(_, _, _) =>
      case CondBrNarrow(_, imm) => Apart(p + 4 + 2 * Signed8(imm), 0x200);
      case CondBrWide(_, imm) => Apart(p + 4 + 2 * Signed20(imm), 0x20_0000);
      case BrNarrow(imm) => Apart(p + 4 + 2 * Signed11(imm), 0x1000);
      case BrWide(link, exchange, imm) => WideAddress(link, exchange, imm, p);
    }
  }

  // A backward branch goes too far by the weight the sign bit has when it is taken for a digit.
  lemma BackwardOff(i: Inst, p: int)
    requires (i.CondBrNarrow? || i.CondBrWide? || i.BrNarrow?) && !InDomain(i, p)
    ensures i.CondBrNarrow? ==> Address(i, p) == Wrap32(Target(i, p) as int + 0x200)
    ensures i.BrNarrow? ==> Address(i, p) == Wrap32(Target(i, p) as int + 0x1000)
    ensures i.CondBrWide? ==> Address(i, p) == Wrap32(Target(i, p) as int + 0x20_0000)
  {
    hide JumpField, LinkField, SwappedField, Signed24, Align4, Wrap32;
    match i {
      case CondBrNarrow(_, imm) => WrapAdds(p + 4 + 2 * Signed8(imm), 0x200);
      case CondBrWide(_, imm) => WrapAdds(p + 4 + 2 * Signed20(imm), 0x20_0000);
      case BrNarrow(imm) => WrapAdds(p + 4 + 2 * Signed11(imm), 0x1000);
    }
  }

  lemma WrapAdds(n: int, k: int)
    ensures Wrap32(Wrap32(n) as int + k) == Wrap32(n + k)
  {
    var q, r := n / TWO_32, n % TWO_32;
    assert n + k == (r + k) + q * TWO_32;
  }

  lemma WideAddress(link: bool, exchange: bool, imm: bv24, p: int)
    requires exchange ==> imm & 1 == 0
    ensures var i := BrWide(link, exchange, imm); Address(i, p) == Target(i, p) <==> InDomain(i, p)
  {
    hide JumpField, LinkField, SwappedField, Signed24, Align4, Wrap32;
    if exchange {
      SwappedAddress(imm, p);
    } else {
      FieldAddress(imm, p);
    }
  }

  lemma SwappedAddress(imm: bv24, p: int)
    requires imm & 1 == 0
    ensures Wrap32(Align4(p + 4) + 2 * Signed24(SwappedField(imm))) == Wrap32(Align4(p + 4) + 2 * Signed24(imm))
       <==> (imm >> 22) & 1 == (imm >> 21) & 1
  {
    hide SwappedField, Signed24, Wrap32, Align4;
    SwappedExact(imm);
    Differ(Align4(p + 4), 2 * Signed24(SwappedField(imm)), 2 * Signed24(imm));
  }

  lemma FieldAddress(imm: bv24, p: int)
    ensures Wrap32(p + 4 + 2 * (LinkField(imm) as int)) == Wrap32(p + 4 + 2 * Signed24(imm)) <==> imm >> 21 == 0
    ensures Wrap32(p + 4 + 2 * (JumpField(imm) as int)) == Wrap32(p + 4 + 2 * Signed24(imm)) <==> imm >> 21 == 0
  {
    hide LinkField, JumpField, Signed24, Wrap32;
    FieldsExact(imm);
    DifferTwice(p + 4, LinkField(imm), Signed24(imm));
    DifferTwice(p + 4, JumpField(imm), Signed24(imm));
  }

  lemma DifferTwice(n: int, field: bv21, y: int)
    requires -0x80_0000 <= y < 0x80_0000
    ensures Wrap32(n + 2 * (field as int)) == Wrap32(n + 2 * y) <==> field as int == y
  {
    hide Wrap32;
    Differ(n, 2 * (field as int), 2 * y);
  }

  // Offsets less than 2^32 apart lead to one address only if they are one.
  lemma Differ(n: int, x: int, y: int)
    requires -TWO_32 < x - y < TWO_32
    ensures Wrap32(n + x) == Wrap32(n + y) <==> x == y
  {
    if x < y {
      Apart(n + x, y - x);
    } else if x > y {
      Apart(n + y, x - y);
    }
  }

  // The three highest bits and the rest.
  lemma Parts24(imm: bv24)
    ensures imm as int == 0x20_0000 * ((imm >> 21) as bv3 as int) + ((imm & 0x1f_ffff) as bv21 as int)
  {
    Joined24((imm >> 21) as bv3, (imm & 0x1f_ffff) as bv21);
    assert ((imm >> 21) as bv3 as bv24 << 21) | ((imm & 0x1f_ffff) as bv21 as bv24) == imm;
  }

  lemma Joined24(top: bv3, low: bv21)
    ensures ((top as bv24 << 21) | (low as bv24)) as int == 0x20_0000 * (top as int) + (low as int)
  {
  }

  function SignedTop(t: bv3): int {
    if t as int >= 4 then t as int - 8 else t as int
  }

  lemma SignedParts(imm: bv24)
    ensures Signed24(imm) == 0x20_0000 * SignedTop((imm >> 21) as bv3) + ((imm & 0x1f_ffff) as bv21 as int)
    ensures -0x80_0000 <= Signed24(imm) < 0x80_0000
  {
    Parts24(imm);
    TopInt((imm >> 21) as bv3);
  }

  lemma TopInt(t: bv3)
    ensures t as int < 8
  {
  }

  lemma FieldsExact(imm: bv24)
    ensures JumpField(imm) as int == Signed24(imm) <==> imm >> 21 == 0
    ensures LinkField(imm) as int == Signed24(imm) <==> imm >> 21 == 0
    ensures -0x80_0000 <= Signed24(imm) < 0x80_0000
  {
    hide JumpField, LinkField, Signed24;
    SignedParts(imm);
    FieldsSmall(imm);
    TopZero(imm);
  }

  lemma TopZero(imm: bv24)
    ensures imm >> 21 == 0 <==> SignedTop((imm >> 21) as bv3) == 0
  {
    assert imm >> 21 == 0 <==> (imm >> 21) as bv3 == 0;
    TopInt((imm >> 21) as bv3);
    assert (imm >> 21) as bv3 == 0 <==> (imm >> 21) as bv3 as int == 0;
  }

  lemma FieldsSmall(imm: bv24)
    ensures imm >> 21 == 0 ==> JumpField(imm) == (imm & 0x1f_ffff) as bv21
    ensures imm >> 21 == 0 ==> LinkField(imm) == (imm & 0x1f_ffff) as bv21
  {
  }

  lemma SwappedExact(imm: bv24)
    requires imm & 1 == 0
    ensures Signed24(SwappedField(imm)) == Signed24(imm) <==> (imm >> 22) & 1 == (imm >> 21) & 1
    ensures -0x80_0000 <= Signed24(imm) < 0x80_0000 && -0x80_0000 <= Signed24(SwappedField(imm)) < 0x80_0000
  {
    hide SwappedField, Signed24, SignedTop, SwapTop;
    SignedParts(imm);
    SignedParts(SwappedField(imm));
    SwappedParts(imm);
    SwappedTops((imm >> 21) as bv3);
  }

  function SwapTop(t: bv3): bv3 {
    (t & 4) | ((t & 1) << 1) | ((t >> 1) & 1)
  }

  lemma SwappedParts(imm: bv24)
    requires imm & 1 == 0
    ensures (SwappedField(imm) >> 21) as bv3 == SwapTop((imm >> 21) as bv3)
    ensures (SwappedField(imm) & 0x1f_ffff) as bv21 == (imm & 0x1f_ffff) as bv21
    ensures (imm >> 22) & 1 == (imm >> 21) & 1 <==> ((imm >> 21) as bv3 >> 1) & 1 == (imm >> 21) as bv3 & 1
  {
  }

  lemma SwappedTops(t: bv3)
    ensures SignedTop(SwapTop(t)) == SignedTop(t) <==> (t >> 1) & 1 == t & 1
  {
    assert t == 0 || t == 1 || t == 2 || t == 3 || t == 4 || t == 5 || t == 6 || t == 7;
  }

  lemma Apart(n: int, d: int)
    requires 0 < d < TWO_32
    ensures Wrap32(n) != Wrap32(n + d)
  {
    var q := n / TWO_32;
    assert n == q * TWO_32 + Wrap32(n);
    if Wrap32(n) + d < TWO_32 {
      ModIs(n + d, q, Wrap32(n) + d);
    } else {
      ModIs(n + d, q + 1, Wrap32(n) + d - TWO_32);
    }
  }

  lemma ModIs(n: int, q: int, r: int)
    requires n == q * TWO_32 + r && 0 <= r < TWO_32
    ensures Wrap32(n) == r
  {
  }

  lemma EvenAddress(p: int, x: int)
    requires p % 2 == 0
    ensures Wrap32(p + 4 + 2 * x) % 2 == 0
  {
    var n, h := p + 4 + 2 * x, p / 2 + 2 + x;
    assert n == 2 * h;
    var q := n / TWO_32;
    assert Wrap32(n) == 2 * (h - 0x8000_0000 * q);
  }

  lemma EvenAligned(p: int, x: int)
    ensures Wrap32(Align4(p + 4) + 2 * x) % 2 == 0
  {
    var q := (p + 4) / 4;
    assert Align4(p + 4) == 4 * q;
    EvenAddress(4 * q - 4, x);
  }

  lemma AddressEven(i: Inst, p: int)
    requires (Branches(i) || i.BlxUndefined?) && p % 2 == 0
    ensures Address(i, p) % 2 == 0
  {
    hide Wrap32, JumpField, LinkField, SwappedField, Align4;
    match i {
      case CmpBr(_, _, imm) => EvenAddress(p, imm as int);
      case CondBrNarrow(_, imm) => EvenAddress(p, imm as int);
      case CondBrWide(_, imm) => EvenAddress(p, imm as int);
      case BrNarrow(imm) => EvenAddress(p, imm as int);
      case BrWide(link, exchange, imm) =>
        EvenAligned(p, Signed24(SwappedField(imm)));
        EvenAddress(p, if link then LinkField(imm) as int else JumpField(imm) as int);
      case BlxUndefined(imm) => EvenAligned(p, Signed24(SwappedField(imm)));
    }
  }

  // ----- the transformation preserves meaning -----

  // The expansion of (h1, h2) from p lies at a, and neither wraps around the address space.
  ghost predicate Placed(h1: Half, h2: Half, p: int, a: int, s: State) {
    && M.BytesAt(s.mem, a, Expand(h1, h2, p, a)) && s.thumb
    && p % 2 == 0 && a % 2 == 0 && 0 <= a && a + 24 <= TWO_32
  }

  // The branch of an expansion skips its B under the instruction's own condition.
  ghost predicate Stands(branch: seq<Half>, b: int, i: Inst, s: State) {
    SkipsB(branch, b) && Taken(Decode(branch[0], branch[|branch| - 1]), s) == Taken(i, s)
  }

  lemma BranchingSimulates(exec: Exec, h1: Half, h2: Half, p: int, a: int, s: State, pad: bool,
                           branch: seq<Half>) returns (k: nat)
    requires Placed(h1, h2, p, a, s)
    requires var i := Decode(h1, h2);
             && (i.CmpBr? || i.CondBrNarrow? || i.CondBrWide?) && InDomain(i, p)
             && Expand(h1, h2, p, a) == Branching(pad, branch, Address(i, p), a)
             && Stands(branch, a + 2 * |Nops(pad)|, i, s.(pc := a))
    requires (a + 2 * |Nops(pad)| + 2 * |branch| + 2) % 4 == 0
    ensures Runs(exec, h1, h2, p, a, s, k)
  {
    hide Branching, Decode, Expand, M.BytesAt, Run, SkipsB, Taken, Address, Target, InDomain;
    var i := Decode(h1, h2);
    AddressExact(i, p);
    AddressEven(i, p);
    TakenAnywhere(i, s, s.(pc := p));
    TakenAnywhere(i, s, s.(pc := a));
    k := BranchingRuns(exec, s.(pc := a), a, pad, branch, Address(i, p));
  }

  lemma CmpBrStands(h1: Half, h2: Half, b: int, s: State)
    requires Decode(h1, h2).CmpBr?
    ensures Stands(CmpBrStub(h1), b, Decode(h1, h2), s) && |CmpBrStub(h1)| == 1
  {
    hide Decode, IsThumb2;
    CmpBrStubDecodes(h1, h2);
  }

  lemma CondBrNarrowStands(h1: Half, h2: Half, b: int, s: State)
    requires Decode(h1, h2).CondBrNarrow?
    ensures Stands(CondBrNarrowStub(h1), b, Decode(h1, h2), s) && |CondBrNarrowStub(h1)| == 1
  {
    hide Decode, IsThumb2, M.ConditionHolds;
    CondBrNarrowStubDecodes(h1, h2);
  }

  lemma CondBrWideStands(h1: Half, h2: Half, b: int, s: State)
    requires Decode(h1, h2).CondBrWide?
    ensures Stands(CondBrWideStub(h1, h2), b, Decode(h1, h2), s)
  {
    hide Decode, IsThumb2, M.ConditionHolds;
    CondBrWideStubDecodes(h1, h2);
  }

  lemma BranchingExpands(h1: Half, h2: Half, p: int, a: int)
    ensures var i := Decode(h1, h2);
            && (i.CmpBr? ==> Expand(h1, h2, p, a) == Branching(a % 4 != 0, CmpBrStub(h1), Address(i, p), a))
            && (i.CondBrNarrow? ==>
              Expand(h1, h2, p, a) == Branching(a % 4 != 0, CondBrNarrowStub(h1), Address(i, p), a))
            && (i.CondBrWide? ==>
              Expand(h1, h2, p, a) == Branching(a % 4 == 0, CondBrWideStub(h1, h2), Address(i, p), a))
  {
    hide Decode, Branching, Address;
  }

  // Padding puts the jump behind a branch of n halfwords and the B at a multiple of four.
  lemma Padding(a: int, n: nat)
    requires a % 2 == 0 && (n == 1 || n == 2)
    ensures var pad := (a % 4 == 0) == (n == 2);
            (a + 2 * |Nops(pad)| + 2 * n + 2) % 4 == 0
  {
    Even4(a);
  }

  lemma CmpBrSimulates(exec: Exec, h1: Half, h2: Half, p: int, a: int, s: State) returns (k: nat)
    requires Decode(h1, h2).CmpBr? && Placed(h1, h2, p, a, s)
    ensures Runs(exec, h1, h2, p, a, s, k)
  {
    hide Decode, Stands, Expand, M.BytesAt, Runs, Branching, Address, CmpBrStub, Nops;
    Padding(a, 1);
    BranchingExpands(h1, h2, p, a);
    CmpBrStands(h1, h2, a + 2 * |Nops(a % 4 != 0)|, s.(pc := a));
    k := BranchingSimulates(exec, h1, h2, p, a, s, a % 4 != 0, CmpBrStub(h1));
  }

  lemma CondBrNarrowSimulates(exec: Exec, h1: Half, h2: Half, p: int, a: int, s: State) returns (k: nat)
    requires Decode(h1, h2).CondBrNarrow? && InDomain(Decode(h1, h2), p) && Placed(h1, h2, p, a, s)
    ensures Runs(exec, h1, h2, p, a, s, k)
  {
    hide Decode, Stands, Expand, M.BytesAt, Runs, Branching, Address, InDomain, CondBrNarrowStub, Nops;
    Padding(a, 1);
    BranchingExpands(h1, h2, p, a);
    CondBrNarrowStands(h1, h2, a + 2 * |Nops(a % 4 != 0)|, s.(pc := a));
    k := BranchingSimulates(exec, h1, h2, p, a, s, a % 4 != 0, CondBrNarrowStub(h1));
  }

  lemma CondBrWideSimulates(exec: Exec, h1: Half, h2: Half, p: int, a: int, s: State) returns (k: nat)
    requires Decode(h1, h2).CondBrWide? && InDomain(Decode(h1, h2), p) && Placed(h1, h2, p, a, s)
    ensures Runs(exec, h1, h2, p, a, s, k)
  {
    hide Decode, Stands, Expand, M.BytesAt, Runs, Branching, Address, InDomain, CondBrWideStub, Nops;
    Padding(a, 2);
    BranchingExpands(h1, h2, p, a);
    CondBrWideStands(h1, h2, a + 2 * |Nops(a % 4 == 0)|, s.(pc := a));
    k := BranchingSimulates(exec, h1, h2, p, a, s, a % 4 == 0, CondBrWideStub(h1, h2));
  }

  lemma BrNarrowSimulates(exec: Exec, h1: Half, h2: Half, p: int, a: int, s: State)
    requires Decode(h1, h2).BrNarrow? && InDomain(Decode(h1, h2), p) && Placed(h1, h2, p, a, s)
    ensures Runs(exec, h1, h2, p, a, s, 1)
  {
    hide Decode, M.BytesAt, LdrRegBlock, Target, Step;
    var i := Decode(h1, h2);
    AddressExact(i, p);
    AddressEven(i, p);
    JumpRuns(exec, s.(pc := a), Address(i, p), a);
  }

  lemma LoadRuns(exec: Exec, t: bv4, to: U32, s: State, a: int)
    requires M.BytesAt(s.mem, a, LdrBRegBlock(t, to, a) + Code(LdrSelf(t))) && s.pc == a && s.thumb && t != 15
    requires a % 2 == 0 && 0 <= a && a + 24 <= TWO_32
    ensures var b := LdrBRegBlock(t, to, a) + Code(LdrSelf(t));
            Run(exec, s, LdrBSteps(t, a) + 1) == Some(s.(r := s.r[t as int := M.Read32(s.mem, to)], pc := a + |b|))
  {
    hide M.BytesAt, LdrBRegBlock, Code, LdrSelf, Step, Run, M.Read32, LdrBSteps;
    var b, k := |LdrBRegBlock(t, to, a)|, LdrBSteps(t, a);
    M.BytesAtSplit(s.mem, a, LdrBRegBlock(t, to, a), Code(LdrSelf(t)));
    LdrBRegBlockLoads(exec, t, to, s, a);
    var s1 := s.(r := s.r[t as int := to], pc := a + b);
    LdrSelfRuns(exec, s1, a + b, t);
    RunAdds(exec, s, k, 1);
    RunOne(exec, s1);
    var v := M.Read32(s.mem, to);
    assert s.r[t as int := to][t as int := v] == s.r[t as int := v];
  }

  lemma LdrLitSimulates(exec: Exec, h1: Half, h2: Half, p: int, a: int, s: State) returns (k: nat)
    requires Decode(h1, h2).LdrLit? && InDomain(Decode(h1, h2), p) && Placed(h1, h2, p, a, s)
    ensures Runs(exec, h1, h2, p, a, s, k)
  {
    hide Decode, M.BytesAt, LdrBRegBlock, Code, LdrSelf, Run, LiteralAddress, M.Read32, Size, LdrBSteps;
    var i := Decode(h1, h2);
    LoadRuns(exec, i.t, Address(i, p), s.(pc := a), a);
    k := LdrBSteps(i.t, a) + 1;
  }

  lemma LdrSelfRuns(exec: Exec, s: State, a: int, reg: bv4)
    requires M.BytesAt(s.mem, a, Code(LdrSelf(reg))) && s.pc == a && s.thumb && reg != 15
    ensures Step(exec, s) == Some(s.(r := s.r[reg as int := M.Read32(s.mem, s.r[reg as int])],
                                     pc := a + 2 * |LdrSelf(reg)|))
  {
    hide DecodeNarrow, DecodeWide, IsThumb2, Code, Step, M.BytesAt;
    LdrSelfDecodes(reg);
    StepsCode(exec, s, a, LdrSelf(reg), 0);
  }

  lemma AdrRegister(h1: Half, h2: Half)
    requires Decode(h1, h2).Adr?
    ensures Decode(h1, h2).d != 15
  {
    hide DecodeWide, DecodeNarrow, IsThumb2;
    if IsThumb2(h1) {
      AdrWide(h1, h2);
    } else {
      AdrNarrow(h1);
    }
  }

  lemma AdrWide(h1: Half, h2: Half)
    requires DecodeWide(h1, h2).Adr?
    ensures DecodeWide(h1, h2).d != 15
  {
    hide AdrImm12, Imm20, Imm24;
  }

  lemma AdrNarrow(h1: Half)
    requires DecodeNarrow(h1).Adr?
    ensures DecodeNarrow(h1).d != 15
  {
  }

  lemma AdrSimulates(exec: Exec, h1: Half, h2: Half, p: int, a: int, s: State) returns (k: nat)
    requires Decode(h1, h2).Adr? && InDomain(Decode(h1, h2), p) && Placed(h1, h2, p, a, s)
    ensures Runs(exec, h1, h2, p, a, s, k)
  {
    hide Decode, M.BytesAt, LdrBRegBlock, Step;
    var i := Decode(h1, h2);
    AdrRegister(h1, h2);
    k := LdrBSteps(i.d, a);
    LdrBRegBlockLoads(exec, i.d, Address(i, p), s.(pc := a), a);
  }

  lemma JumpSimulates(exec: Exec, h1: Half, h2: Half, p: int, a: int, s: State)
    requires var i := Decode(h1, h2); i.BrWide? && !i.link && InDomain(i, p)
    requires Placed(h1, h2, p, a, s)
    ensures Runs(exec, h1, h2, p, a, s, 1)
  {
    hide Decode, M.BytesAt, LdrRegBlock, Target, Step, JumpField, LinkField, SwappedField;
    var i := Decode(h1, h2);
    WideLinks(h1, h2);
    AddressExact(i, p);
    AddressEven(i, p);
    JumpRuns(exec, s.(pc := a), Address(i, p), a);
  }

  lemma WideLinks(h1: Half, h2: Half)
    ensures var i := Decode(h1, h2); i.BrWide? ==> (i.exchange ==> i.link && i.imm24 & 1 == 0)
  {
    hide DecodeWide, DecodeNarrow, IsThumb2, Imm24;
    NarrowImmediates(h1);
    WideImmediates(h1, h2);
    if Decode(h1, h2).BrWide? && Decode(h1, h2).exchange {
      EvenBlx(h1, h2);
    }
  }

  lemma EvenBlx(h1: Half, h2: Half)
    ensures DecodeWide(h1, h2).BrWide? && DecodeWide(h1, h2).exchange ==> Imm24(h1, h2) & 1 == 0
  {
    hide AdrImm12, RtField, Imm12Field, Imm20;
  }

  // The return address into LR, then the jump.
  lemma LinkRuns(exec: Exec, s: State, p: int, lit: U32, a: int)
    requires M.BytesAt(s.mem, a, LinkBlock(p, lit, a)) && s.pc == a && s.thumb
    requires a % 2 == 0 && 0 <= a && a + 24 <= TWO_32
    ensures Run(exec, s, LdrBSteps(14, a) + 1)
         == Some(s.(r := s.r[14 := Wrap32(p + 5)], pc := lit - lit % 2, thumb := lit % 2 == 1))
  {
    hide M.BytesAt, LdrBRegBlock, LdrRegBlock, Step, Run, LdrBSteps;
    var link, k := LdrBRegBlock(14, Wrap32(p + 5), a), LdrBSteps(14, a);
    M.BytesAtSplit(s.mem, a, link, LdrRegBlock(15, lit, a + |link|));
    LdrBRegBlockLoads(exec, 14, Wrap32(p + 5), s, a);
    var s1 := s.(r := s.r[14 := Wrap32(p + 5)], pc := a + |link|);
    LinkEven(p, a);
    LdrRegBlockLoads(exec, 15, lit, s1, a + |link|);
    RunAdds(exec, s, k, 1);
    RunOne(exec, s1);
  }

  lemma LinkEven(p: int, a: int)
    requires a % 2 == 0
    ensures var link := LdrBRegBlock(14, Wrap32(p + 5), a); (a + |link|) % 2 == 0 && |link| <= 12
  {
    hide HalfBytes, LdrBRegCode;
    var n, h := |LdrBRegCode(14, a % 4 == 0)|, a / 2;
    assert a + |LdrBRegBlock(14, Wrap32(p + 5), a)| == 2 * (h + n + 2);
  }

  lemma LinkSimulates(exec: Exec, h1: Half, h2: Half, p: int, a: int, s: State) returns (k: nat)
    requires var i := Decode(h1, h2); i.BrWide? && i.link && InDomain(i, p)
    requires Placed(h1, h2, p, a, s)
    ensures Runs(exec, h1, h2, p, a, s, k)
  {
    hide Decode, M.BytesAt, LinkBlock, Target, Step, JumpField, LinkField, SwappedField, LdrBSteps, Run;
    var i := Decode(h1, h2);
    var to := Address(i, p);
    WideLinks(h1, h2);
    AddressExact(i, p);
    AddressEven(i, p);
    k := LdrBSteps(14, a) + 1;
    LinkRuns(exec, s.(pc := a), p, if i.exchange then to else ThumbPointer(to), a);
  }

  // A copy does what the instruction does.
  lemma CopySimulates(exec: Exec, h1: Half, h2: Half, p: int, a: int, s: State)
    requires Copied(Decode(h1, h2)) && InDomain(Decode(h1, h2), p) && Placed(h1, h2, p, a, s)
    requires Meant(exec, h1, h2, p, a, s)
    ensures Runs(exec, h1, h2, p, a, s, 1)
  {
    hide DecodeNarrow, DecodeWide, M.BytesAt, Code, Step, Execute, IsThumb2, Leaves, InDomain;
    var i := Decode(h1, h2);
    RunOne(exec, s.(pc := a));
    CopySteps(exec, h1, h2, s.(pc := a), a);
    Elsewhere(exec, h1, h2, s, p, a);
  }

  lemma CopySteps(exec: Exec, h1: Half, h2: Half, s: State, a: int)
    requires M.BytesAt(s.mem, a, Code(Halves(h1, h2))) && s.pc == a && s.thumb
    ensures Step(exec, s) == Execute(exec, Decode(h1, h2), h1, h2, s)
  {
    hide DecodeNarrow, DecodeWide, M.BytesAt, Code, Step, Execute, IsThumb2;
    StepsCode(exec, s, a, Halves(h1, h2), 0);
    if !IsThumb2(h1) {
      NarrowAlone(exec, DecodeNarrow(h1), h1, h2, s);
    }
  }

  // Where an instruction stands does not matter if it does not read the PC.
  lemma Elsewhere(exec: Exec, h1: Half, h2: Half, s: State, p: int, a: int)
    requires var i := Decode(h1, h2); Copied(i) && InDomain(i, p)
    requires Execute(exec, Decode(h1, h2), h1, h2, s.(pc := p)).Some?
    ensures SameElsewhere(exec, Decode(h1, h2), h1, h2, s, p, a)
  {
    hide Decode, SameElsewhere, Execute;
    Bases(h1, h2);
    InstElsewhere(exec, Decode(h1, h2), h1, h2, s, p, a);
  }

  ghost predicate SameElsewhere(exec: Exec, i: Inst, h1: Half, h2: Half, s: State, p: int, a: int)
    requires Execute(exec, i, h1, h2, s.(pc := p)).Some?
  {
    var x, y := Execute(exec, i, h1, h2, s.(pc := p)), Execute(exec, i, h1, h2, s.(pc := a));
    && y.Some? && y.value == x.value.(pc := y.value.pc)
    && y.value.pc == if Leaves(exec, i, h1, h2, s.(pc := p)) then x.value.pc else a + Size(h1)
  }

  lemma InstElsewhere(exec: Exec, i: Inst, h1: Half, h2: Half, s: State, p: int, a: int)
    requires Copied(i) && InDomain(i, p) && Execute(exec, i, h1, h2, s.(pc := p)).Some?
    requires (i.LdrImm? ==> i.n != 15) && (i.StrImm? ==> i.n != 15 && i.t != 15)
    ensures SameElsewhere(exec, i, h1, h2, s, p, a)
  {
    hide M.Read32, HalfBytes, Wrap32, Align2, Size, Unopened, Target, SameElsewhere;
    match i {
      case Other => OtherElsewhere(exec, h1, h2, s, p, a);
      case MovReg(_, _) => RegElsewhere(exec, i, h1, h2, s, p, a);
      case AddReg(_, _) => RegElsewhere(exec, i, h1, h2, s, p, a);
      case _ => MemElsewhere(exec, i, h1, h2, s, p, a);
    }
  }

  lemma OtherElsewhere(exec: Exec, h1: Half, h2: Half, s: State, p: int, a: int)
    requires Execute(exec, Other, h1, h2, s.(pc := p)).Some?
    ensures SameElsewhere(exec, Other, h1, h2, s, p, a)
  {
    hide Size, Second;
  }

  lemma RegElsewhere(exec: Exec, i: Inst, h1: Half, h2: Half, s: State, p: int, a: int)
    requires (i.MovReg? || i.AddReg?) && Copied(i) && InDomain(i, p)
    ensures SameElsewhere(exec, i, h1, h2, s, p, a)
  {
    hide Wrap32, Align2, Size, Unopened, Target;
  }

  lemma MemElsewhere(exec: Exec, i: Inst, h1: Half, h2: Half, s: State, p: int, a: int)
    requires i.LdrImm? || i.StrImm? || i.PushR7? || i.PopR7?
    requires (i.LdrImm? ==> i.n != 15) && (i.StrImm? ==> i.n != 15 && i.t != 15)
    ensures SameElsewhere(exec, i, h1, h2, s, p, a)
  {
    hide M.Read32, HalfBytes, Wrap32, Size, Unopened, Target;
  }

  // No load or store with an immediate offset is from the PC, and none stores it.
  lemma Bases(h1: Half, h2: Half)
    ensures var i := Decode(h1, h2);
            (i.LdrImm? ==> i.n != 15) && (i.StrImm? ==> i.n != 15 && i.t != 15)
  {
    hide DecodeWide, DecodeNarrow, IsThumb2;
    if IsThumb2(h1) {
      WideBases(h1, h2);
    } else {
      NarrowBases(h1);
    }
  }

  lemma WideBases(h1: Half, h2: Half)
    ensures DecodeWide(h1, h2).LdrImm? ==> DecodeWide(h1, h2).n != 15
    ensures DecodeWide(h1, h2).StrImm? ==> DecodeWide(h1, h2).n != 15 && DecodeWide(h1, h2).t != 15
  {
    hide AdrImm12, Imm20, Imm24, Imm12Field;
  }

  lemma NarrowBases(h1: Half)
    ensures DecodeNarrow(h1).LdrImm? ==> DecodeNarrow(h1).n != 15
    ensures DecodeNarrow(h1).StrImm? ==> DecodeNarrow(h1).n != 15 && DecodeNarrow(h1).t != 15
  {
    hide Imm6Field, Imm8Field, Imm11Field, Imm8Words;
  }

  // A control instruction that stands for itself, then the B over the jump.
  lemma ControlSimulates(exec: Exec, h1: Half, h2: Half, p: int, a: int, s: State) returns (k: nat)
    requires Decode(h1, h2).MiscControl? && CondBrWideStub(h1, h2) == [h1, h2] && Placed(h1, h2, p, a, s)
    requires Meant(exec, h1, h2, p, a, s)
    ensures Runs(exec, h1, h2, p, a, s, k)
  {
    hide DecodeNarrow, DecodeWide, M.BytesAt, Code, Step, IsThumb2, Run, BImm, LdrRegBlock, Imm20, ThumbPointer, Has;
    var pad, i := a % 4 == 0, Decode(h1, h2);
    var hs, n := Nops(pad) + [h1, h2] + [BImm(6)], |Nops(pad)|;
    var s0, s1, l := s.(pc := a), s.(pc := a + 2 * n), a + 2 * |hs|;
    var lit := ThumbPointer(Wrap32(p + 4 + 2 * (Imm20(h1, h2) as int)));
    Padding(a, 2);
    ControlWide(h1, h2);
    BranchingParts(pad, [h1, h2]);
    M.BytesAtSplit(s.mem, a, Code(hs), LdrRegBlock(15, lit, l));
    Fourfold(l);
    LdrPcLength(lit, l);
    PadRuns(exec, s0, a, hs, pad);
    ControlSteps(exec, h1, h2, s1, a, hs, n);
    var e := Execute(exec, i, h1, h2, s.(pc := p)).value;
    k := n + 1;
    RunAdds(exec, s0, n, 1);
    RunOne(exec, s1);
    if !Leaves(exec, i, h1, h2, s.(pc := p)) {
      var s2 := e.(pc := a + 2 * n + 4);
      M.BytesAtSplit(e.mem, a, Code(hs), LdrRegBlock(15, lit, l));
      StepsB(exec, s2, a, hs, n + 2, 6);
      RunAdds(exec, s0, n + 1, 1);
      RunOne(exec, s2);
      assert Wrap32(s2.pc + 10) == s2.pc + 10;
      k := n + 2;
    }
  }

  // There are two of them.
  lemma ControlKept(h1: Half, h2: Half)
    requires Decode(h1, h2).MiscControl?
    ensures CondBrWideStub(h1, h2) == [h1, h2] <==> (h1 == 0xf380 || h1 == 0xf3c0) && h2 == 0x8001
  {
    hide DecodeNarrow, Imm24, AdrImm12, RtField, Imm12Field, Imm20;
    ControlWide(h1, h2);
    var hs := CondBrWideStub(h1, h2);
    assert hs == [hs[0], hs[1]];
  }

  lemma ControlWide(h1: Half, h2: Half)
    requires Decode(h1, h2).MiscControl?
    ensures IsThumb2(h1)
  {
    hide DecodeNarrow, DecodeWide;
    NarrowImmediates(h1);
  }

  lemma ControlSteps(exec: Exec, h1: Half, h2: Half, s: State, a: int, hs: seq<Half>, n: nat)
    requires M.BytesAt(s.mem, a, Code(hs)) && s.pc == a + 2 * n && s.thumb && Has(hs, n, [h1, h2]) && IsThumb2(h1)
    ensures Step(exec, s) == Execute(exec, Decode(h1, h2), h1, h2, s)
  {
    hide DecodeNarrow, DecodeWide, M.BytesAt, Code, Step, Execute, IsThumb2;
    assert hs[n] == [h1, h2][0] && hs[n + 1] == [h1, h2][1];
    StepsCode(exec, s, a, hs, n);
  }

  /**
   * In the domain, at either alignment of the instruction and of its expansion, from any state: what write_one emits
   * for an instruction, rewritten or copied, does what the instruction does.
   */
  lemma ExpansionSimulates(exec: Exec, h1: Half, h2: Half, p: int, a: int, s: State)
    requires Preserved(h1, h2, p) && Placed(h1, h2, p, a, s) && Meant(exec, h1, h2, p, a, s)
    ensures exists k: nat :: Runs(exec, h1, h2, p, a, s, k)
  {
    hide Decode, InDomain, Placed, Runs, Meant, Copied;
    var k: nat;
    match Decode(h1, h2) {
      case CmpBr(_, _, _) => k := CmpBrSimulates(exec, h1, h2, p, a, s);
      case CondBrNarrow(_, _) => k := CondBrNarrowSimulates(exec, h1, h2, p, a, s);
      case CondBrWide(_, _) => k := CondBrWideSimulates(exec, h1, h2, p, a, s);
      case BrNarrow(_) => BrNarrowSimulates(exec, h1, h2, p, a, s); k := 1;
      case BrWide(link, _, _) =>
        if link {
          k := LinkSimulates(exec, h1, h2, p, a, s);
        } else {
          JumpSimulates(exec, h1, h2, p, a, s);
          k := 1;
        }
      case LdrLit(_, _, _) => k := LdrLitSimulates(exec, h1, h2, p, a, s);
      case Adr(_, _, _) => k := AdrSimulates(exec, h1, h2, p, a, s);
      case MiscControl => k := ControlSimulates(exec, h1, h2, p, a, s);
      case _ =>
        DomainCopied(Decode(h1, h2), p);
        CopySimulates(exec, h1, h2, p, a, s);
        k := 1;
    }
  }

  lemma DomainCopied(i: Inst, p: int)
    requires InDomain(i, p) && !Branches(i) && !i.LdrLit? && !i.Adr?
    ensures Copied(i)
  {
  }
}
