/** The rewrites of the Thumb relocator (relocator-thumb.c), which append expansions to the writer. */
module ThumbRelocator {
  import opened Numbers
  import opened ThumbMachine
  import opened ThumbExpansion
  import opened ThumbRelocation
  import opened ThumbWriter
  import opened ThumbReader
  import opened ThumbWindow

  // get_insn_sub
  function InsnSub(insn: Half, start: bv4, mask: Half): bv32 {
    ((insn >> start) & mask) as bv32
  }

  // ----- the displacements, as the rewrites assemble them -----

  function CbzImm(h1: Half): bv32 { (InsnSub(h1, 3, 0x1f) << 1) | (InsnSub(h1, 9, 1) << 6) }
  function B1Imm(h1: Half): bv32 { InsnSub(h1, 0, 0xff) << 1 }
  function B2Imm(h1: Half): bv32 { InsnSub(h1, 0, 0x7ff) << 1 }
  function B3Imm(h1: Half, h2: Half): bv32 {
    (InsnSub(h2, 0, 0x7ff) << 1) | (InsnSub(h1, 0, 0x3f) << 12) | (InsnSub(h2, 13, 1) << 18)
    | (InsnSub(h2, 11, 1) << 19) | (InsnSub(h1, 10, 1) << 20)
  }
  function Imm8By4(h1: Half): bv32 { InsnSub(h1, 0, 0xff) << 2 }
  function AdrImm(h1: Half, h2: Half): bv32 {
    InsnSub(h2, 0, 0xff) | (InsnSub(h2, 12, 7) << 8) | (InsnSub(h1, 10, 1) << 11)
  }

  // B T4: the sign is looked for beyond the 16 bits of the first halfword.
  function B4Imm(h1: Half, h2: Half): bv32 {
    var s := ((h1 as bv32) >> 26) & 1;
    var i1, i2 := !(InsnSub(h2, 13, 1) ^ s) & 1, !(InsnSub(h2, 11, 1) ^ s) & 1;
    (InsnSub(h2, 0, 0x7ff) << 1) | (InsnSub(h1, 0, 0x3ff) << 12) | (i1 << 18) | (i2 << 19) | (s << 20)
  }

  function BlImm(h1: Half, h2: Half): bv32 {
    var s := InsnSub(h1, 10, 1);
    var i1, i2 := !(InsnSub(h2, 13, 1) ^ s) & 1, !(InsnSub(h2, 11, 1) ^ s) & 1;
    (InsnSub(h2, 0, 0x7ff) << 1) | (InsnSub(h1, 0, 0x3ff) << 12) | (i1 << 18) | (i2 << 19) | (s << 20)
  }

  function BlxImm(h1: Half, h2: Half): bv32 {
    var s := InsnSub(h1, 10, 1);
    var i1, i2 := !(InsnSub(h2, 13, 1) ^ s) & 1, !(InsnSub(h2, 11, 1) ^ s) & 1;
    var signExtend: bv32 := if s == 1 then 0xff00_0000 else 0;
    (InsnSub(h2, 1, 0x3ff) << 2) | (InsnSub(h1, 0, 0x3ff) << 12) | (i1 << 22) | (i2 << 23) | signExtend
  }

  lemma ShiftedField6(h1: Half)
    ensures CbzImm(h1) == (Imm6Field(h1) as bv32) << 1
  {
  }

  lemma ShiftedFields(h1: Half)
    ensures B1Imm(h1) == (Imm8Field(h1) as bv32) << 1
    ensures B2Imm(h1) == (Imm11Field(h1) as bv32) << 1
  {
  }

  lemma ShiftedField20(h1: Half, h2: Half)
    ensures B3Imm(h1, h2) == (Imm20(h1, h2) as bv32) << 1
  {
  }

  lemma ShiftedJump(h1: Half, h2: Half)
    ensures B4Imm(h1, h2) == (JumpField(Imm24(h1, h2)) as bv32) << 1
  {
  }

  lemma ShiftedLink(h1: Half, h2: Half)
    ensures BlImm(h1, h2) == (LinkField(Imm24(h1, h2)) as bv32) << 1
  {
  }

  // x is a displacement in halfwords, forwards or backwards, and y twice that, from the 23 bits below the sign.
  predicate Forward(low: bv23, x: bv24, y: bv32) {
    x == low as bv24 && y == (low as bv32) << 1
  }

  predicate Backward(low: bv23, x: bv24, y: bv32) {
    x == 0x80_0000 | (low as bv24) && y == 0xff00_0000 | ((low as bv32) << 1)
  }

  lemma ForwardBits(h1: Half, h2: Half)
    requires h1 & 0x400 == 0
    ensures var x := SwappedField(Imm24(h1, h2));
            var low := (x & 0x7f_ffff) as bv23;
            x == low as bv24 && BlxImm(h1, h2) == (low as bv32) << 1
  {
    assert InsnSub(h1, 10, 1) == 0 && (h1 >> 10) & 1 == 0;
  }

  lemma BackwardBits(h1: Half, h2: Half)
    requires h1 & 0x400 != 0
    ensures var x := SwappedField(Imm24(h1, h2));
            var low := (x & 0x7f_ffff) as bv23;
            x == 0x80_0000 | (low as bv24) && BlxImm(h1, h2) == 0xff00_0000 | ((low as bv32) << 1)
  {
    assert InsnSub(h1, 10, 1) == 1 && (h1 >> 10) & 1 == 1;
  }

  lemma ShiftedSwapped(h1: Half, h2: Half) returns (low: bv23)
    ensures Forward(low, SwappedField(Imm24(h1, h2)), BlxImm(h1, h2))
            || Backward(low, SwappedField(Imm24(h1, h2)), BlxImm(h1, h2))
  {
    hide SwappedField, Imm24, BlxImm;
    low := (SwappedField(Imm24(h1, h2)) & 0x7f_ffff) as bv23;
    if h1 & 0x400 == 0 {
      ForwardBits(h1, h2);
    } else {
      BackwardBits(h1, h2);
    }
  }

  lemma Doubled21(x: bv21)
    ensures ((x as bv32) << 1) as int == 2 * (x as int)
  {
  }

  lemma DoubledForward(low: bv23, x: bv24, y: bv32)
    requires Forward(low, x, y)
    ensures y as int == 2 * Signed24(x)
  {
    assert (low as bv24) as int == low as int;
    assert ((low as bv32) << 1) as int == 2 * (low as int);
    assert low as int < 0x80_0000;
  }

  lemma DoubledBackward(low: bv23, x: bv24, y: bv32)
    requires Backward(low, x, y)
    ensures y as int == 2 * Signed24(x) + TWO_32
  {
    assert (0x80_0000 | (low as bv24)) as int == 0x80_0000 + low as int;
    assert (0xff00_0000 | ((low as bv32) << 1)) as int == 0xff00_0000 + 2 * (low as int);
  }

  lemma KeptFields(h1: Half, h2: Half)
    ensures Imm8By4(h1) == Imm8Words(h1) as bv32
    ensures InsnSub(h2, 0, 0xfff) == Imm12Field(h2) as bv32
  {
  }

  lemma KeptAdr(h1: Half, h2: Half)
    ensures AdrImm(h1, h2) == AdrImm12(h1, h2) as bv32
  {
  }

  lemma Doubled(x6: bv6, x8: bv8, x11: bv11, x20: bv20)
    ensures ((x6 as bv32) << 1) as int == 2 * (x6 as int)
    ensures ((x8 as bv32) << 1) as int == 2 * (x8 as int)
    ensures ((x11 as bv32) << 1) as int == 2 * (x11 as int)
    ensures ((x20 as bv32) << 1) as int == 2 * (x20 as int)
  {
  }

  lemma Kept(x12: bv12)
    ensures (x12 as bv32) as int == x12 as int
  {
  }

  /**
   * The displacements are the decoded ones without their sign; those of the wide branches have I1, I2 and S where the
   * field functions say.
   */
  lemma Displacements(h1: Half, h2: Half)
    ensures CbzImm(h1) as int == 2 * (Imm6Field(h1) as int)
    ensures B1Imm(h1) as int == 2 * (Imm8Field(h1) as int)
    ensures B2Imm(h1) as int == 2 * (Imm11Field(h1) as int)
    ensures B3Imm(h1, h2) as int == 2 * (Imm20(h1, h2) as int)
    ensures B4Imm(h1, h2) as int == 2 * (JumpField(Imm24(h1, h2)) as int)
    ensures BlImm(h1, h2) as int == 2 * (LinkField(Imm24(h1, h2)) as int)
    ensures Wrap32(BlxImm(h1, h2) as int) == Wrap32(2 * Signed24(SwappedField(Imm24(h1, h2))))
    ensures Imm8By4(h1) as int == Imm8Words(h1) as int
    ensures InsnSub(h2, 0, 0xfff) as int == Imm12Field(h2) as int
    ensures AdrImm(h1, h2) as int == AdrImm12(h1, h2) as int
  {
    hide CbzImm, B1Imm, B2Imm, B3Imm, Imm8By4, InsnSub, AdrImm, B4Imm, BlImm, BlxImm, JumpField, LinkField,
      SwappedField;
    hide Imm6Field, Imm8Field, Imm11Field, Imm20, Imm8Words, Imm12Field, AdrImm12, Imm24, Signed24;
    ShiftedField6(h1);
    ShiftedFields(h1);
    ShiftedField20(h1, h2);
    ShiftedJump(h1, h2);
    ShiftedLink(h1, h2);
    KeptFields(h1, h2);
    KeptAdr(h1, h2);
    Doubled(Imm6Field(h1), Imm8Field(h1), Imm11Field(h1), Imm20(h1, h2));
    Doubled21(JumpField(Imm24(h1, h2)));
    Doubled21(LinkField(Imm24(h1, h2)));
    Kept(Imm8Words(h1));
    Kept(Imm12Field(h2));
    Kept(AdrImm12(h1, h2));
    SwappedDisplacement(h1, h2);
  }

  lemma SwappedDisplacement(h1: Half, h2: Half)
    ensures Wrap32(BlxImm(h1, h2) as int) == Wrap32(2 * Signed24(SwappedField(Imm24(h1, h2))))
  {
    hide BlxImm, SwappedField, Imm24, Signed24, Wrap32, Forward, Backward;
    var x, y := SwappedField(Imm24(h1, h2)), BlxImm(h1, h2);
    var low := ShiftedSwapped(h1, h2);
    if Forward(low, x, y) {
      DoubledForward(low, x, y);
    } else {
      DoubledBackward(low, x, y);
      OnceAround(2 * Signed24(x));
    }
  }

  lemma OnceAround(n: int)
    ensures Wrap32(n + TWO_32) == Wrap32(n)
  {
  }

  // Numbers that are one modulo 2^32 lead to one address.
  lemma SameAddress(n: int, x: int, y: int)
    requires Wrap32(x) == Wrap32(y)
    ensures Wrap32(n + x) == Wrap32(n + y)
  {
    var q := x / TWO_32 - y / TWO_32;
    assert x == y + q * TWO_32;
    var k := (n + y) / TWO_32;
    assert n + x == (k + q) * TWO_32 + Wrap32(n + y);
    ModIs(n + x, k + q, Wrap32(n + y));
  }

  // An instruction as the reader reads it, at an address where there is Thumb code.
  predicate WellRead(i: Insn) {
    i.size == Size(i.insn1) && i.pc % 2 == 0 && 0 <= i.pc < TWO_32
  }

  class Relocator {
    const input: Reader
    const output: Writer
    var needRelocateInputCount: nat
    var doneRelocateInputCount: nat
    var literalCTXs: seq<InsnCtx>

    ghost predicate Valid()
      reads this, input, output
    {
      && output.Valid() && |literalCTXs| <= MAX_INSN_SIZE
      && doneRelocateInputCount <= needRelocateInputCount == |input.insnCTXs|
      && (input.startPc + input.insnsSize) % 2 == 0 && 0 <= input.startPc
      && forall k :: 0 <= k < |input.insnCTXs| ==> WellRead(input.insnCTXs[k])
    }

    constructor (input: Reader, output: Writer)
      requires output.Valid() && input.insnCTXs == [] && input.insnsSize == 0
      requires input.startPc % 2 == 0 && 0 <= input.startPc
      ensures Valid() && this.input == input && this.output == output && literalCTXs == []
      ensures needRelocateInputCount == doneRelocateInputCount == 0
    {
      this.input, this.output := input, output;
      needRelocateInputCount, doneRelocateInputCount := 0, 0;
      literalCTXs := [];
    }

    // thumb_relocator_read_one, without the copy it makes of an uninitialised context.
    method ReadOne()
      requires Valid() && input.Valid() && input.startPc + input.insnsSize < TWO_32
      modifies this`needRelocateInputCount, input
      ensures Valid() && input.Valid()
      ensures var i := InsnAt(input.memory, input.startPc - 4 + old(input.insnsSize));
              input.insnCTXs == old(input.insnCTXs) + [i]
      ensures needRelocateInputCount == old(needRelocateInputCount) + 1
    {
      hide HalfAt, IsThumb2;
      var ctx := input.ReadOneInstruction();
      needRelocateInputCount := needRelocateInputCount + 1;
      SizeOf(input.memory, ctx.pc - 4);
      SumEven(input.startPc + old(input.insnsSize), ctx.size);
    }

    // Room for one more expansion, and its literals.
    predicate Room()
      reads this, output
    {
      RoomFor(1)
    }

    predicate RoomFor(n: nat)
      reads this, output
    {
      output.Room(24 * n, 9 * n) && |literalCTXs| + 2 * n <= MAX_INSN_SIZE
    }

    // The expansion of an instruction is appended to the output.
    twostate predicate Rewrites(i: Insn)
      requires old(Valid()) && Valid()
      reads this, input, output, output.insnsBuffer
    {
      && output.Appends(Expand(i.insn1, i.insn2, i.pc - 4, old(output.Here())))
      && |output.insnCTXs| <= |old(output.insnCTXs)| + 9
    }

    // The literal just written is noted.
    method RegisterLiteral()
      requires Valid() && |literalCTXs| < MAX_INSN_SIZE && output.insnCTXs != []
      modifies this`literalCTXs
      ensures literalCTXs == old(literalCTXs) + [output.insnCTXs[|output.insnCTXs| - 1]]
    {
      literalCTXs := literalCTXs + [output.insnCTXs[|output.insnCTXs| - 1]];
    }

    // The padding, the branch, the B over the jump and the jump; the literal is four bytes before the end.
    method PutBranching(pad: bool, branch: seq<Half>, target: U32)
      requires Valid() && Room() && 1 <= |branch| <= 2
      modifies output, output.insnsBuffer
      ensures Valid() && output.Appends(Branching(pad, branch, target, old(output.Here())))
      ensures |output.insnCTXs| <= |old(output.insnCTXs)| + 9
      ensures output.insnCTXs != []
      ensures output.insnCTXs[|output.insnCTXs| - 1] == InsnCtx(output.startPc + output.insnsSize - 4, 4, 0)
    {
      hide Code, BImm, LdrRegBlock, Contexts, Nops, WellRead;
      ghost var before := output.Bytes();
      output.PutPadding(pad);
      output.PutHalves(branch);
      output.PutBImm(6);
      CodeAppend(Nops(pad), branch);
      CodeAppend(Nops(pad) + branch, [BImm(6)]);
      assert output.Bytes() == before + Code(Nops(pad) + branch + [BImm(6)]);
      output.PutLdrRegAddress(15, ThumbPointer(target));
    }

    method RewriteCbz(i: Insn)
      requires Valid() && Room() && Decode(i.insn1, i.insn2).CmpBr?
      modifies this`literalCTXs, output, output.insnsBuffer
      ensures Valid() && Rewrites(i)
      ensures literalCTXs == old(literalCTXs) + [InsnCtx(output.startPc + output.insnsSize - 4, 4, 0)]
    {
      hide Decode, Contexts, Address, Wrap32, CbzImm, Branching, CmpBrStub, WellRead;
      TargetIs(i.insn1, i.insn2, i.pc);
      var imm32 := CbzImm(i.insn1);
      var targetAddress := Wrap32(i.pc + imm32 as int);
      var currentPc := output.startPc + output.insnsSize;
      PutBranching(currentPc % 4 != 0, CmpBrStub(i.insn1), targetAddress);
      RegisterLiteral();
    }

    method RewriteBT1(i: Insn)
      requires Valid() && Room() && Decode(i.insn1, i.insn2).CondBrNarrow?
      modifies this`literalCTXs, output, output.insnsBuffer
      ensures Valid() && Rewrites(i)
      ensures literalCTXs == old(literalCTXs) + [InsnCtx(output.startPc + output.insnsSize - 4, 4, 0)]
    {
      hide Decode, Contexts, Address, Wrap32, B1Imm, Branching, CondBrNarrowStub, WellRead;
      TargetIs(i.insn1, i.insn2, i.pc);
      var imm32 := B1Imm(i.insn1);
      var targetAddress := Wrap32(i.pc + imm32 as int);
      var currentPc := output.startPc + output.insnsSize;
      PutBranching(currentPc % 4 != 0, CondBrNarrowStub(i.insn1), targetAddress);
      RegisterLiteral();
    }

    method RewriteBT2(i: Insn)
      requires Valid() && Room() && Decode(i.insn1, i.insn2).BrNarrow?
      modifies this`literalCTXs, output, output.insnsBuffer
      ensures Valid() && Rewrites(i)
      ensures literalCTXs == old(literalCTXs) + [InsnCtx(output.startPc + output.insnsSize - 4, 4, 0)]
    {
      hide Decode, Contexts, Address, Wrap32, B2Imm, LdrRegBlock, WellRead;
      TargetIs(i.insn1, i.insn2, i.pc);
      var imm32 := B2Imm(i.insn1);
      var targetAddress := Wrap32(i.pc + imm32 as int);
      output.PutLdrRegAddress(15, ThumbPointer(targetAddress));
      RegisterLiteral();
    }

    // The literal is not noted here.
    method RewriteBT3(i: Insn)
      requires Valid() && Room() && (Decode(i.insn1, i.insn2).CondBrWide? || Decode(i.insn1, i.insn2).MiscControl?)
      modifies output, output.insnsBuffer
      ensures Valid() && Rewrites(i)
    {
      hide Decode, Contexts, Address, Wrap32, B3Imm, Imm20, Branching, CondBrWideStub, WellRead;
      TargetIs(i.insn1, i.insn2, i.pc);
      var imm32 := B3Imm(i.insn1, i.insn2);
      var targetAddress := Wrap32(i.pc + imm32 as int);
      var currentPc := output.startPc + output.insnsSize;
      PutBranching(currentPc % 4 == 0, CondBrWideStub(i.insn1, i.insn2), targetAddress);
    }

    method RewriteBT4(i: Insn)
      requires Valid() && Room() && Decode(i.insn1, i.insn2).BrWide? && !Decode(i.insn1, i.insn2).link
      modifies this`literalCTXs, output, output.insnsBuffer
      ensures Valid() && Rewrites(i)
      ensures literalCTXs == old(literalCTXs) + [InsnCtx(output.startPc + output.insnsSize - 4, 4, 0)]
    {
      hide Decode, Contexts, Address, Wrap32, B4Imm, LdrRegBlock, WellRead;
      TargetIs(i.insn1, i.insn2, i.pc);
      var imm32 := B4Imm(i.insn1, i.insn2);
      var targetAddress := Wrap32(i.pc + imm32 as int);
      output.PutLdrRegAddress(15, ThumbPointer(targetAddress));
      RegisterLiteral();
    }

    // The literal of the return address, noted once or twice, and a jump.
    method PutLink(address: U32, target: U32, twice: bool)
      requires Valid() && Room() && address % 2 == 0
      modifies this`literalCTXs, output, output.insnsBuffer
      ensures Valid() && output.Appends(LinkBlock(address - 4, target, old(output.Here())))
      ensures |output.insnCTXs| <= |old(output.insnCTXs)| + 9
      ensures var link := |LdrBRegBlock(14, Wrap32(address + 1), old(output.Here()))|;
              var c := InsnCtx(old(output.Here()) + link, 4, 0);
              literalCTXs == old(literalCTXs) + if twice then [c, c] else [c]
      ensures output.insnCTXs != []
      ensures output.insnCTXs[|output.insnCTXs| - 1] == InsnCtx(output.startPc + output.insnsSize - 4, 4, 0)
    {
      hide Contexts, LdrBRegBlock, LdrRegBlock, WellRead;
      output.PutLdrBRegAddress(14, Wrap32(address + 1));
      RegisterLiteral();
      if twice {
        RegisterLiteral();
      }
      output.PutLdrRegAddress(15, target);
    }

    // BL: the literal of the return address is noted twice, that of the target not.
    method RewriteBl(i: Insn)
      requires Valid() && Room() && i.pc % 2 == 0 && 0 <= i.pc < TWO_32
      requires var j := Decode(i.insn1, i.insn2); j.BrWide? && j.link && !j.exchange
      modifies this`literalCTXs, output, output.insnsBuffer
      ensures Valid() && Rewrites(i)
      ensures |literalCTXs| == |old(literalCTXs)| + 2 && old(literalCTXs) <= literalCTXs
      ensures literalCTXs[|literalCTXs| - 1] == literalCTXs[|literalCTXs| - 2]
    {
      hide Decode, Contexts, LinkBlock, BlImm, Address, Wrap32, LdrBRegBlock, WellRead;
      TargetIs(i.insn1, i.insn2, i.pc);
      var imm32 := BlImm(i.insn1, i.insn2);
      var targetAddress := Wrap32(i.pc + imm32 as int);
      PutLink(i.pc, ThumbPointer(targetAddress), true);
    }

    // BLX: both literals are noted.
    method RewriteBlx(i: Insn)
      requires Valid() && Room() && i.pc % 2 == 0 && 0 <= i.pc < TWO_32
      requires var j := Decode(i.insn1, i.insn2); (j.BrWide? && j.exchange) || j.BlxUndefined?
      modifies this`literalCTXs, output, output.insnsBuffer
      ensures Valid() && Rewrites(i)
      ensures |literalCTXs| == |old(literalCTXs)| + 2 && old(literalCTXs) <= literalCTXs
      ensures literalCTXs[|literalCTXs| - 1] == InsnCtx(output.startPc + output.insnsSize - 4, 4, 0)
    {
      hide Decode, Contexts, LinkBlock, BlxImm, Address, Wrap32, Align4, LdrBRegBlock, WellRead;
      ExchangeTarget(i.insn1, i.insn2, i.pc);
      var imm32 := BlxImm(i.insn1, i.insn2);
      var targetAddress := Wrap32(Align4(i.pc) + imm32 as int);
      PutLink(i.pc, targetAddress, false);
      RegisterLiteral();
    }

    // ADD (register): only one of the PC is rewritten.
    method RewriteAddRegister(i: Insn) returns (done: bool)
      requires Valid() && Room() && Decode(i.insn1, i.insn2).AddReg? && 0 <= i.pc < TWO_32
      modifies output, output.insnsBuffer
      ensures Valid() && done == (Decode(i.insn1, i.insn2).m == 15)
      ensures done ==> Rewrites(i)
      ensures !done ==> output.Appends([]) && output.insnCTXs == old(output.insnCTXs)
      ensures !done ==> output.insnsSize == old(output.insnsSize)
    {
      hide Decode, Contexts, AddBlock, Address, WellRead;
      TargetIs(i.insn1, i.insn2, i.pc);
      var rm := ((i.insn1 >> 3) & 0xf) as bv4;
      if rm != 15 {
        return false;
      }
      PutAdd(i.insn1, i.pc);
      return true;
    }

    method PutAdd(h1: Half, pc: U32)
      requires Valid() && Room()
      modifies output, output.insnsBuffer
      ensures Valid() && output.Appends(AddBlock(h1, pc, old(output.Here())))
      ensures |output.insnCTXs| <= |old(output.insnCTXs)| + 9
    {
      hide Contexts, LdrBRegBlock, Code, AddStub, WellRead;
      SevenListed();
      output.PutPushReg(7);
      output.PutLdrBRegAddress(7, pc);
      output.PutInstruction(AddStub(h1));
      output.PutPopReg(7);
      CodeAppend([AddStub(h1)], [0xbc80]);
      assert [AddStub(h1)] + [0xbc80] == [AddStub(h1), 0xbc80];
    }

    // What is not rewritten is copied.
    method PutCopy(i: Insn)
      requires Valid() && output.Room(4, 1) && Copied(Decode(i.insn1, i.insn2)) && i.size == Size(i.insn1)
      modifies output, output.insnsBuffer
      ensures Valid() && Rewrites(i)
    {
      hide DecodeNarrow, DecodeWide, IsThumb2, Contexts, HalfwordBytes, WellRead;
      if i.size == 4 {
        CodeAppend([i.insn1], [i.insn2]);
        CodeOne(i.insn1);
        CodeOne(i.insn2);
        assert [i.insn1] + [i.insn2] == [i.insn1, i.insn2];
        output.PutBytes(HalfwordBytes(i.insn1) + HalfwordBytes(i.insn2));
      } else {
        CodeOne(i.insn1);
        output.PutBytes(HalfwordBytes(i.insn1));
      }
    }

    // ldr rt, [rt]; the encoding T2 between the two needs SP as the base and a low register.
    method PutLdrSelf(reg: bv4)
      requires Valid() && output.Room(8, 4)
      modifies output, output.insnsBuffer
      ensures Valid() && output.Appends(Code(LdrSelf(reg))) && |output.insnCTXs| <= |old(output.insnCTXs)| + 4
    {
      hide Code, Contexts, TransferT1, TransferT3, WellRead;
      TransferLengths(reg);
      NoCode();
      var done := output.PutTransferT1(true, reg, reg, 0);
      if !done {
        done := output.PutTransferT3(true, reg, reg, 0);
      }
    }

    // The context of the literal of thumb_writer_put_ldr_b_reg_address at `a`; its pc is four more than its address.
    ghost function LoadedLiteral(reg: bv4, address: U32, a: int): InsnCtx {
      InsnCtx(a + |LdrBRegBlock(reg, address, a)|, 4, 0)
    }

    // The datum's address into the register, noted, and a load from there.
    method PutLoad(reg: bv4, address: U32)
      requires Valid() && Room()
      modifies this`literalCTXs, output, output.insnsBuffer
      ensures Valid() && output.Appends(LdrBRegBlock(reg, address, old(output.Here())) + Code(LdrSelf(reg)))
      ensures |output.insnCTXs| <= |old(output.insnCTXs)| + 9
      ensures literalCTXs == old(literalCTXs) + [LoadedLiteral(reg, address, old(output.Here()))]
    {
      hide Code, Contexts, LdrBRegBlock, LdrSelf, WellRead;
      output.PutLdrBRegAddress(reg, address);
      RegisterLiteral();
      PutLdrSelf(reg);
    }

    method RewriteLdrLiteralT1(i: Insn)
      requires Valid() && Room() && Decode(i.insn1, i.insn2).LdrLit? && !IsThumb2(i.insn1)
      modifies this`literalCTXs, output, output.insnsBuffer
      ensures Valid() && Rewrites(i)
      ensures var j := Decode(i.insn1, i.insn2);
              literalCTXs == old(literalCTXs) + [LoadedLiteral(j.t, Address(j, i.pc - 4), old(output.Here()))]
    {
      hide DecodeNarrow, DecodeWide, IsThumb2, Contexts, LdrBRegBlock, Code, LdrSelf, Imm8By4, Imm8Words, WellRead;
      Displacements(i.insn1, i.insn2);
      NarrowImmediates(i.insn1);
      var imm32 := Imm8By4(i.insn1);
      var targetAddress := Wrap32(Align4(i.pc) + imm32 as int);
      var rt := ((i.insn1 >> 8) & 7) as bv4;
      PutLoad(rt, targetAddress);
    }

    method RewriteLdrLiteralT2(i: Insn)
      requires Valid() && Room() && Decode(i.insn1, i.insn2).LdrLit? && IsThumb2(i.insn1)
      modifies this`literalCTXs, output, output.insnsBuffer
      ensures Valid() && Rewrites(i)
      ensures var j := Decode(i.insn1, i.insn2);
              literalCTXs == old(literalCTXs) + [LoadedLiteral(j.t, Address(j, i.pc - 4), old(output.Here()))]
    {
      hide Decode, IsThumb2, Contexts, LdrBRegBlock, Code, LdrSelf, RtField, Address, WellRead, Expand, LiteralTarget;
      LiteralIs(i.insn1, i.insn2, i.pc);
      LiteralExpands(i.insn1, i.insn2, i.pc - 4, output.Here());
      PutLoad(RtField(i.insn2), LiteralTarget(i.insn1, i.insn2, i.pc));
    }

    method RewriteAdrT1(i: Insn)
      requires Valid() && Room() && Decode(i.insn1, i.insn2).Adr? && !IsThumb2(i.insn1)
      modifies output, output.insnsBuffer
      ensures Valid() && Rewrites(i)
    {
      hide DecodeNarrow, DecodeWide, IsThumb2, Contexts, LdrBRegBlock, Imm8By4, Imm8Words, WellRead;
      Displacements(i.insn1, i.insn2);
      NarrowImmediates(i.insn1);
      var imm32 := Imm8By4(i.insn1);
      var targetAddress := Wrap32(i.pc + imm32 as int);
      output.PutLdrBRegAddress(((i.insn1 >> 8) & 7) as bv4, targetAddress);
    }

    // T2 subtracts, T3 adds.
    method RewriteAdrWide(i: Insn, add: bool)
      requires Valid() && Room() && (Decode(i.insn1, i.insn2).Adr? || Decode(i.insn1, i.insn2).AdrUnpredictable?)
      requires IsThumb2(i.insn1) && add == (i.insn1 & 0xfbff == 0xf20f)
      modifies output, output.insnsBuffer
      ensures Valid() && Rewrites(i)
    {
      hide DecodeNarrow, DecodeWide, IsThumb2, Contexts, LdrBRegBlock, AdrImm, AdrImm12, WellRead;
      Displacements(i.insn1, i.insn2);
      WideImmediates(i.insn1, i.insn2);
      var imm32 := AdrImm(i.insn1, i.insn2);
      var targetAddress := Wrap32(if add then i.pc + imm32 as int else i.pc - imm32 as int);
      output.PutLdrBRegAddress(((i.insn2 >> 8) & 0xf) as bv4, targetAddress);
    }

    // The switch of write_one.
    method RewriteOrCopy(i: Insn)
      requires Valid() && Room() && WellRead(i)
      modifies this`literalCTXs, output, output.insnsBuffer
      ensures Valid() && Rewrites(i)
      ensures old(literalCTXs) <= literalCTXs && |literalCTXs| <= |old(literalCTXs)| + 2
    {
      hide Decode, IsThumb2, Contexts, Expand, LdrBRegBlock, Copied;
      var rewritten := true;
      var t := GetThumbInsnType(i.insn1, i.insn2);
      TypeOfRewritten(i.insn1, i.insn2);
      match t {
        case CbnzCbz => RewriteCbz(i);
        case AddRegisterT2 => rewritten := RewriteAddRegister(i);
        case LdrLiteralT1 => RewriteLdrLiteralT1(i);
        case LdrLiteralT2 => RewriteLdrLiteralT2(i);
        case AdrT1 => RewriteAdrT1(i);
        case AdrT2 => RewriteAdrWide(i, false);
        case AdrT3 => RewriteAdrWide(i, true);
        case BT1 => RewriteBT1(i);
        case BT2 => RewriteBT2(i);
        case BT3 => RewriteBT3(i);
        case BT4 => RewriteBT4(i);
        case BlBlxImmediateT1 => RewriteBl(i);
        case BlBlxImmediateT2 => RewriteBlx(i);
        case Undef => rewritten := false;
      }
      if !rewritten {
        PutCopy(i);
      }
    }

    /** thumb_relocator_write_one: the next instruction, classified, then rewritten or copied. */
    method WriteOne() returns (more: bool)
      requires Valid() && (doneRelocateInputCount < needRelocateInputCount ==> Room())
      modifies this`literalCTXs, this`doneRelocateInputCount, output, output.insnsBuffer
      ensures Valid() && more == (old(doneRelocateInputCount) < needRelocateInputCount)
      ensures doneRelocateInputCount == old(doneRelocateInputCount) + if more then 1 else 0
      ensures output.Appends(ExpandAll(input.insnCTXs[old(doneRelocateInputCount)..doneRelocateInputCount],
                                       old(output.Here())))
      ensures |output.insnCTXs| <= |old(output.insnCTXs)| + (if more then 9 else 0)
      ensures output.insnsSize <= old(output.insnsSize) + if more then 24 else 0
      ensures old(literalCTXs) <= literalCTXs && |literalCTXs| <= |old(literalCTXs)| + if more then 2 else 0
    {
      hide Contexts, Expand, WellRead, ExpandAll;
      ghost var done, here := doneRelocateInputCount, output.Here();
      if needRelocateInputCount != doneRelocateInputCount {
        var i := input.insnCTXs[doneRelocateInputCount];
        doneRelocateInputCount := doneRelocateInputCount + 1;
        RewriteOrCopy(i);
        EvenExpansion(i.insn1, i.insn2, i.pc - 4, here);
        assert input.insnCTXs[done..done + 1] == [i];
        ExpandOne(i, here);
        return true;
      }
      assert input.insnCTXs[done..done] == [];
      NothingExpands(here);
      return false;
    }

    /** thumb_relocator_write_all: what became of every instruction not yet written, one behind the other. */
    method WriteAll()
      requires Valid() && RoomFor(needRelocateInputCount - doneRelocateInputCount)
      modifies this`literalCTXs, this`doneRelocateInputCount, output, output.insnsBuffer
      ensures Valid() && doneRelocateInputCount == needRelocateInputCount
      ensures output.Appends(ExpandAll(input.insnCTXs[old(doneRelocateInputCount)..], old(output.Here())))
    {
      hide Contexts, WellRead, ExpandAll;
      ghost var done, here, before, insns := doneRelocateInputCount, output.Here(), output.Bytes(), input.insnCTXs;
      NothingExpands(here);
      assert insns[done..done] == [];
      var more := true;
      while more
        invariant Valid() && input.insnCTXs == insns
        invariant done <= doneRelocateInputCount && (!more ==> doneRelocateInputCount == needRelocateInputCount)
        invariant RoomFor(needRelocateInputCount - doneRelocateInputCount)
        invariant output.startPc == old(output.startPc) && old(output.insnCTXs) <= output.insnCTXs
        invariant output.Bytes() == before + ExpandAll(insns[done..doneRelocateInputCount], here)
        decreases needRelocateInputCount - doneRelocateInputCount, more
      {
        ghost var k := doneRelocateInputCount;
        ghost var upto := ExpandAll(insns[done..k], here);
        assert output.Here() == here + |upto|;
        more := WriteOne();
        ghost var one := ExpandAll(insns[k..doneRelocateInputCount], here + |upto|);
        ExpandMore(insns[done..k], insns[k..doneRelocateInputCount], here);
        assert insns[done..k] + insns[k..doneRelocateInputCount] == insns[done..doneRelocateInputCount];
        assert (before + upto) + one == before + (upto + one);
      }
      assert insns[done..doneRelocateInputCount] == insns[done..];
    }

    /** thumb_relocator_double_write: everything again, for its final address. */
    method DoubleWrite(finalAddress: int)
      requires Valid() && finalAddress % 4 == 0 && 0 <= finalAddress
      requires finalAddress + 4 + output.insnsBuffer.Length <= TWO_32
      requires 24 * needRelocateInputCount <= output.insnsBuffer.Length && 9 * needRelocateInputCount <= MAX_INSN_SIZE
      modifies this`literalCTXs, this`doneRelocateInputCount, output, output.insnsBuffer
      ensures Valid() && doneRelocateInputCount == needRelocateInputCount
      ensures output.Bytes() == ExpandAll(input.insnCTXs, finalAddress)
    {
      hide ExpandAll, WellRead;
      output.Reset(finalAddress);
      doneRelocateInputCount := 0;
      literalCTXs := [];
      WriteAll();
      assert input.insnCTXs[0..] == input.insnCTXs;
    }
  }

  lemma LiteralExpands(h1: Half, h2: Half, p: int, a: int)
    requires Decode(h1, h2).LdrLit?
    ensures var i := Decode(h1, h2);
            Expand(h1, h2, p, a) == LdrBRegBlock(i.t, Address(i, p), a) + Code(LdrSelf(i.t))
  {
    hide Decode, LdrBRegBlock, Code, LdrSelf, Address;
  }

  // R7 alone in a register list.
  lemma SevenListed()
    ensures (0xb400 as Half) | (1 << (7 as bv4)) == 0xb480 && (0xbc00 as Half) | (1 << (7 as bv4)) == 0xbc80 && Low(7)
  {
  }

  // The address LDR (literal), encoding T2, loads from.
  function LiteralTarget(h1: Half, h2: Half, pc: int): U32 {
    var imm32, add := InsnSub(h2, 0, 0xfff) as int, h1 & 0x80 != 0;
    Wrap32(if add then Align4(pc) + imm32 else Align4(pc) - imm32)
  }

  lemma LiteralIs(h1: Half, h2: Half, pc: int)
    requires Decode(h1, h2).LdrLit? && IsThumb2(h1)
    ensures var i := Decode(h1, h2); i.t == RtField(h2) && Address(i, pc - 4) == LiteralTarget(h1, h2, pc)
  {
    hide DecodeNarrow, DecodeWide, IsThumb2, InsnSub, Imm12Field, RtField, Wrap32, Align4;
    Displacements(h1, h2);
    WideImmediates(h1, h2);
  }

  // Where the rewrites of branches find the target.
  lemma TargetIs(h1: Half, h2: Half, pc: int)
    ensures var to := Address(Decode(h1, h2), pc - 4);
            match Decode(h1, h2)
            case CmpBr(_, _, _) => to == Wrap32(pc + CbzImm(h1) as int)
            case CondBrNarrow(_, _) => to == Wrap32(pc + B1Imm(h1) as int)
            case BrNarrow(_) => to == Wrap32(pc + B2Imm(h1) as int)
            case CondBrWide(_, _) => to == Wrap32(pc + B3Imm(h1, h2) as int)
            case MiscControl => Wrap32(pc - 4 + 4 + 2 * (Imm20(h1, h2) as int)) == Wrap32(pc + B3Imm(h1, h2) as int)
            case BrWide(link, exchange, _) =>
              && (exchange ==> link)
              && (!exchange ==>
                to == Wrap32(pc + if link then BlImm(h1, h2) as int else B4Imm(h1, h2) as int))
            case AddReg(_, m) => m == ((h1 >> 3) & 0xf) as bv4 && to == Wrap32(pc)
            case _ => true
  {
    hide DecodeNarrow, DecodeWide, IsThumb2, CbzImm, B1Imm, B2Imm, B3Imm, B4Imm, BlImm, Imm6Field, Imm8Field,
      Imm11Field, Imm20, Imm24, JumpField, LinkField, SwappedField, Wrap32;
    Displacements(h1, h2);
    NarrowImmediates(h1);
    WideImmediates(h1, h2);
  }

  lemma ExchangeTarget(h1: Half, h2: Half, pc: int)
    requires var i := Decode(h1, h2); (i.BrWide? && i.exchange) || i.BlxUndefined?
    ensures Address(Decode(h1, h2), pc - 4) == Wrap32(Align4(pc) + BlxImm(h1, h2) as int)
    ensures Decode(h1, h2).BrWide? ==> Decode(h1, h2).link
  {
    hide DecodeNarrow, DecodeWide, IsThumb2, BlxImm, Imm24, JumpField, LinkField, SwappedField, Wrap32, Align4,
      Signed24;
    NarrowImmediates(h1);
    WideImmediates(h1, h2);
    SwappedDisplacement(h1, h2);
    SameAddress(Align4(pc), BlxImm(h1, h2) as int, 2 * Signed24(SwappedField(Imm24(h1, h2))));
  }

  // The type of an instruction tells which rewrite it is for.
  lemma TypeOfRewritten(h1: Half, h2: Half)
    ensures var i := Decode(h1, h2);
            match TypeOf(h1, h2)
            case CbnzCbz => i.CmpBr?
            case AddRegisterT2 => i.AddReg? && (Copied(i) <==> i.m != 15)
            case LdrLiteralT1 => i.LdrLit? && !IsThumb2(h1)
            case LdrLiteralT2 => i.LdrLit? && IsThumb2(h1)
            case AdrT1 => i.Adr? && !IsThumb2(h1)
            case AdrT2 => (i.Adr? || i.AdrUnpredictable?) && IsThumb2(h1) && h1 & 0xfbff != 0xf20f
            case AdrT3 => (i.Adr? || i.AdrUnpredictable?) && IsThumb2(h1) && h1 & 0xfbff == 0xf20f
            case BT1 => i.CondBrNarrow?
            case BT2 => i.BrNarrow?
            case BT3 => i.CondBrWide? || i.MiscControl?
            case BT4 => i.BrWide? && !i.link
            case BlBlxImmediateT1 => i.BrWide? && i.link && !i.exchange
            case BlBlxImmediateT2 => (i.BrWide? && i.exchange) || i.BlxUndefined?
            case Undef => Copied(i)
  {
    hide DecodeNarrow, DecodeWide, IsThumb2;
    NarrowImmediates(h1);
    WideImmediates(h1, h2);
  }

  lemma TransferLengths(reg: bv4)
    ensures Low(reg) <==> TransferT1(true, reg, reg, 0) != []
    ensures TransferT3(true, reg, reg, 0) != [] && |TransferT1(true, reg, reg, 0)| <= 1
  {
  }
}
