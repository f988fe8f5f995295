/** The Thumb instruction writer (writer-thumb.c). */
module ThumbWriter {
  import opened Numbers
  import opened A64Encoding
  import opened ThumbMachine
  import opened ThumbExpansion
  import opened ThumbBranch
  import opened A64NearBranch

  const MAX_INSN_SIZE: nat := 256

  // ARMInstruction; the host address is left out. `pc` is 4 more than the instruction's address.
  datatype InsnCtx = InsnCtx(pc: int, size: nat, insn1: Half)

  // One context after the other, from `start` to `end`.
  ghost predicate Contexts(ctxs: seq<InsnCtx>, start: int, end: int) {
    if ctxs == [] then start == end
    else
      var c := ctxs[|ctxs| - 1];
      c.pc + c.size == end && Contexts(ctxs[..|ctxs| - 1], start, c.pc)
  }

  lemma ContextsAppend(ctxs: seq<InsnCtx>, start: int, end: int, c: InsnCtx)
    requires Contexts(ctxs, start, end) && c.pc == end
    ensures Contexts(ctxs + [c], start, end + c.size)
  {
    assert (ctxs + [c])[..|ctxs|] == ctxs;
  }

  class Writer {
    const insnsBuffer: array<bv8>
    var startPc: int
    var insnsSize: nat
    var insnCTXs: seq<InsnCtx>

    // The buffer ends within the address space, wherever the code is meant to go.
    ghost predicate Valid()
      reads this
    {
      && 4 <= startPc && startPc % 4 == 0 && startPc + insnsBuffer.Length <= TWO_32
      && insnsSize <= insnsBuffer.Length && insnsSize % 2 == 0 && |insnCTXs| <= MAX_INSN_SIZE
      && Contexts(insnCTXs, startPc, startPc + insnsSize)
    }

    ghost function Bytes(): seq<bv8>
      requires Valid()
      reads this, insnsBuffer
    {
      insnsBuffer[..insnsSize]
    }

    // Where the next instruction is meant to go.
    function Here(): int
      reads this
    {
      startPc - 4 + insnsSize
    }

    // Room for n bytes in k instructions.
    predicate Room(n: nat, k: nat)
      reads this
    {
      insnsSize + n <= insnsBuffer.Length && |insnCTXs| + k <= MAX_INSN_SIZE
    }

    constructor (buffer: array<bv8>, targetPC: int)
      requires targetPC % 4 == 0 && 0 <= targetPC && targetPC + 4 + buffer.Length <= TWO_32
      ensures Valid() && insnsBuffer == buffer && Bytes() == [] && Here() == targetPC && insnCTXs == []
    {
      insnsBuffer := buffer;
      startPc := targetPC + 4;
      insnsSize := 0;
      insnCTXs := [];
    }

    method Reset(targetPC: int)
      requires targetPC % 4 == 0 && 0 <= targetPC && targetPC + 4 + insnsBuffer.Length <= TWO_32
      modifies this
      ensures Valid() && Bytes() == [] && Here() == targetPC && insnCTXs == []
    {
      startPc := targetPC + 4;
      insnsSize := 0;
      insnCTXs := [];
    }

    // What every put leaves as it was.
    twostate predicate Appends(data: seq<bv8>)
      requires old(Valid()) && Valid()
      reads this, insnsBuffer
    {
      Bytes() == old(Bytes()) + data && startPc == old(startPc) && old(insnCTXs) <= insnCTXs
    }

    method PutBytes(data: seq<bv8>)
      requires Valid() && Room(|data|, 1) && |data| % 2 == 0
      modifies this, insnsBuffer
      ensures Valid() && Appends(data)
      ensures insnCTXs == old(insnCTXs) + [InsnCtx(startPc + old(insnsSize), |data|, 0)]
    {
      hide Contexts;
      var ctx := InsnCtx(startPc + insnsSize, |data|, 0);
      ContextsAppend(insnCTXs, startPc, startPc + insnsSize, ctx);
      StaysEven(insnsSize, |data|);
      CopyIn(data);
      insnsSize := insnsSize + |data|;
      insnCTXs := insnCTXs + [ctx];
    }

    // memcpy to the end of what is written.
    method CopyIn(data: seq<bv8>)
      requires insnsSize + |data| <= insnsBuffer.Length
      modifies insnsBuffer
      ensures insnsBuffer[..insnsSize + |data|] == old(insnsBuffer[..insnsSize]) + data
    {
      ghost var before := insnsBuffer[..insnsSize];
      forall i | 0 <= i < |data| {
        insnsBuffer[insnsSize + i] := data[i];
      }
      assert insnsBuffer[..insnsSize] == before;
      assert insnsBuffer[insnsSize..insnsSize + |data|] == data;
      assert insnsBuffer[..insnsSize + |data|] == insnsBuffer[..insnsSize] + insnsBuffer[insnsSize..insnsSize + |data|];
    }

    method PutInstruction(insn: Half)
      requires Valid() && Room(2, 1)
      modifies this, insnsBuffer
      ensures Valid() && Appends(Code([insn]))
      ensures insnCTXs == old(insnCTXs) + [InsnCtx(startPc + old(insnsSize), 2, insn)]
    {
      var ctx := InsnCtx(startPc + insnsSize, 2, insn);
      ContextsAppend(insnCTXs, startPc, startPc + insnsSize, ctx);
      CodeOne(insn);
      CopyIn(HalfwordBytes(insn));
      insnsSize := insnsSize + 2;
      insnCTXs := insnCTXs + [ctx];
    }

    method PutNop()
      requires Valid() && Room(2, 1)
      modifies this, insnsBuffer
      ensures Valid() && Appends(Code([NOP]))
      ensures |insnCTXs| == |old(insnCTXs)| + 1
    {
      PutInstruction(0x46c0);
    }

    method PutBImm(imm: bv32)
      requires Valid() && Room(2, 1)
      modifies this, insnsBuffer
      ensures Valid() && Appends(Code([BImm(imm)]))
      ensures |insnCTXs| == |old(insnCTXs)| + 1
    {
      PutInstruction(0xe000 | (((imm / 2) & 0x7ff) as bv16));
    }

    // One register.
    method PutPushReg(reg: bv4)
      requires Valid() && Room(2, 1)
      modifies this, insnsBuffer
      ensures Valid() && Appends(Code([0xb400 | (1 << reg)])) && |insnCTXs| == |old(insnCTXs)| + 1
    {
      PutInstruction(0xb400 | (1 << reg));
    }

    method PutPopReg(reg: bv4)
      requires Valid() && Room(2, 1)
      modifies this, insnsBuffer
      ensures Valid() && Appends(Code([0xbc00 | (1 << reg)])) && |insnCTXs| == |old(insnCTXs)| + 1
    {
      PutInstruction(0xbc00 | (1 << reg));
    }

    // Two halfwords in a row.
    method PutPair(insn1: Half, insn2: Half)
      requires Valid() && Room(4, 2)
      modifies this, insnsBuffer
      ensures Valid() && Appends(Code([insn1, insn2]))
      ensures |insnCTXs| == |old(insnCTXs)| + 2
    {
      hide Code;
      PutInstruction(insn1);
      CodeAppend([insn1], [insn2]);
      assert [insn1] + [insn2] == [insn1, insn2];
      PutInstruction(insn2);
    }

    method PutBranchImm(imm: int, link: bool, thumb: bool)
      requires Valid() && Room(4, 2) && -0x8000_0000 <= imm < 0x8000_0000
      modifies this, insnsBuffer
      ensures Valid() && Appends(Code(BranchImm(imm, link, thumb)))
    {
      hide Code, Low32, HalfDistance, BranchFirst, BranchSecond;
      var distance := Low32(HalfDistance(imm));
      PutPair(BranchFirst(distance), BranchSecond(distance, link, thumb));
    }

    // Nothing is emitted for an offset of 4096 or more.
    method PutLdrRegImm(reg: bv4, imm: int)
      requires Valid() && Room(4, 2)
      modifies this, insnsBuffer
      ensures Valid() && Appends(Code(LdrRegImm(reg, imm)))
      ensures |insnCTXs| <= |old(insnCTXs)| + 2
    {
      hide Code, LdrNarrow, LdrWide, RtImm12, ByteOf;
      if reg <= 7 && imm >= 0 && imm < 0x400 {
        PutInstruction(LdrNarrow(reg, ByteOf(imm / 4)));
      } else if imm < 0x1000 {
        var n := if imm < 0 then -imm else imm;
        PutPair(LdrWide(imm >= 0), RtImm12(reg, ByteOf(n), ByteOf(n / 0x100)));
      } else {
        NoCode();
      }
    }

    // A load and a nop.
    method PutLdrRegImmNop(reg: bv4, imm: int)
      requires Valid() && Room(6, 3)
      modifies this, insnsBuffer
      ensures Valid() && Appends(Code(LdrRegImm(reg, imm) + [NOP]))
      ensures |insnCTXs| <= |old(insnCTXs)| + 3
    {
      hide Code, LdrRegImm, Contexts, Low;
      PutLdrRegImm(reg, imm);
      CodeAppend(LdrRegImm(reg, imm), [NOP]);
      PutNop();
    }

    // The literal behind a load.
    method PutLiteral(address: U32)
      requires Valid() && Room(4, 1)
      modifies this, insnsBuffer
      ensures Valid() && Appends(HalfBytes(address))
      ensures insnCTXs == old(insnCTXs) + [InsnCtx(startPc + insnsSize - 4, 4, 0)]
    {
      hide HalfBytes, Contexts;
      PutBytes(HalfBytes(address));
    }

    method PutLdrRegAddress(reg: bv4, address: U32)
      requires Valid() && Room(12, 4)
      modifies this, insnsBuffer
      ensures Valid() && Appends(LdrRegBlock(reg, address, old(Here())))
      ensures |old(insnCTXs)| < |insnCTXs| <= |old(insnCTXs)| + 4
      ensures insnCTXs[|insnCTXs| - 1] == InsnCtx(startPc + insnsSize - 4, 4, 0)
    {
      hide Code, LdrRegImm, HalfBytes, Contexts, Low;
      var currentPc := startPc + insnsSize;
      ghost var before, aligned := Bytes(), Here() % 4 == 0;
      LoadLengths(reg);
      assert LdrRegImm(reg, 0) + [] == LdrRegImm(reg, 0);
      if currentPc % 4 != 0 {
        if Low(reg) {
          PutLdrRegImm(reg, 0);
        } else {
          PutLdrRegImmNop(reg, 4);
        }
      } else if Low(reg) {
        PutLdrRegImmNop(reg, 0);
      } else {
        PutLdrRegImm(reg, 0);
      }
      assert Bytes() == before + Code(LdrRegCode(reg, aligned));
      PutLiteral(address);
    }

    method PutLdrBRegAddress(reg: bv4, address: U32)
      requires Valid() && Room(12, 5)
      modifies this, insnsBuffer
      ensures Valid() && Appends(LdrBRegBlock(reg, address, old(Here())))
      ensures |old(insnCTXs)| < |insnCTXs| <= |old(insnCTXs)| + 5
      ensures insnCTXs[|insnCTXs| - 1] == InsnCtx(startPc + insnsSize - 4, 4, 0)
    {
      hide Code, LdrRegImm, HalfBytes, BImm, Contexts;
      ghost var before, here := Bytes(), Here();
      PutLoadForB(reg);
      CodeAppend(LdrForB(reg, here % 4 == 0), [BImm(2)]);
      PutBImm(2);
      assert Bytes() == before + Code(LdrBRegCode(reg, here % 4 == 0));
      PutLiteral(address);
    }

    // The load of put_ldr_b_reg_address.
    method PutLoadForB(reg: bv4)
      requires Valid() && Room(6, 3)
      modifies this, insnsBuffer
      ensures Valid() && Appends(Code(LdrForB(reg, old(Here()) % 4 == 0)))
      ensures |insnCTXs| <= |old(insnCTXs)| + 3
    {
      hide Code, LdrRegImm, Contexts, Low;
      var currentPc := startPc + insnsSize;
      assert LdrRegImm(reg, 0) + [] == LdrRegImm(reg, 0) && LdrRegImm(reg, 4) + [] == LdrRegImm(reg, 4);
      if currentPc % 4 != 0 {
        if Low(reg) {
          PutLdrRegImmNop(reg, 4);
        } else {
          PutLdrRegImm(reg, 4);
        }
      } else if Low(reg) {
        PutLdrRegImm(reg, 0);
      } else {
        PutLdrRegImmNop(reg, 4);
      }
    }

    // FALSE, and nothing written, outside the encoding's reach.
    method PutTransferT1(load: bool, left: bv4, right: bv4, offset: int) returns (done: bool)
      requires Valid() && Room(2, 1)
      modifies this, insnsBuffer
      ensures Valid() && Appends(Code(TransferT1(load, left, right, offset)))
      ensures done == (TransferT1(load, left, right, offset) != [])
      ensures |insnCTXs| == |old(insnCTXs)| + |TransferT1(load, left, right, offset)|
    {
      hide Code, Contexts, TransferNarrow;
      NoCode();
      if offset < 0 {
        return false;
      }
      if left <= 7 && right <= 7 && offset < 0x80 {
        PutInstruction(TransferNarrow(load, left, right, ByteOf(offset / 4)));
        return true;
      }
      return false;
    }

    method PutTransferT3(load: bool, left: bv4, right: bv4, offset: int) returns (done: bool)
      requires Valid() && Room(8, 4)
      modifies this, insnsBuffer
      ensures Valid() && Appends(Code(TransferT3(load, left, right, offset)))
      ensures done == (TransferT3(load, left, right, offset) != []) && |insnCTXs| <= |old(insnCTXs)| + 4
    {
      hide Code, Contexts, LdrRegImm, TransferWide, RtImm12, ByteOf;
      NoCode();
      if offset < 0 {
        return false;
      }
      if offset < 0x1000 {
        ghost var first := if right == 15 then LdrRegImm(left, offset) else [];
        if right == 15 {
          PutLdrRegImm(left, offset);
        }
        PutWide(load, left, right, offset, first);
        return true;
      }
      return false;
    }

    // The load or store itself, behind what is already there.
    method PutWide(load: bool, left: bv4, right: bv4, offset: int, ghost first: seq<Half>)
      requires Valid() && Room(4, 2)
      modifies this, insnsBuffer
      ensures Valid() && startPc == old(startPc) && old(insnCTXs) <= insnCTXs && |insnCTXs| == |old(insnCTXs)| + 2
      ensures var last := [TransferWide(load, right), RtImm12(left, ByteOf(offset), ByteOf(offset / 0x100))];
              Bytes() == old(Bytes()) + Code(last) && Code(first + last) == Code(first) + Code(last)
    {
      hide Code, Contexts, TransferWide, RtImm12, ByteOf;
      PutPair(TransferWide(load, right), RtImm12(left, ByteOf(offset), ByteOf(offset / 0x100)));
      CodeAppend(first, [TransferWide(load, right), RtImm12(left, ByteOf(offset), ByteOf(offset / 0x100))]);
    }

    // A nop where one is needed to align.
    method PutPadding(needed: bool)
      requires Valid() && Room(2, 1)
      modifies this, insnsBuffer
      ensures Valid() && Appends(Code(Nops(needed))) && |insnCTXs| <= |old(insnCTXs)| + 1
    {
      hide Code, Contexts;
      NoCode();
      if needed {
        PutNop();
      }
    }

    // An instruction of one or two halfwords.
    method PutHalves(hs: seq<Half>)
      requires Valid() && Room(4, 2) && 1 <= |hs| <= 2
      modifies this, insnsBuffer
      ensures Valid() && Appends(Code(hs)) && |insnCTXs| <= |old(insnCTXs)| + 2
    {
      hide Code, Contexts;
      if |hs| == 1 {
        PutInstruction(hs[0]);
        assert [hs[0]] == hs;
      } else {
        PutPair(hs[0], hs[1]);
        assert [hs[0], hs[1]] == hs;
      }
    }
  }

  lemma StaysEven(m: nat, n: nat)
    requires m % 2 == 0 && n % 2 == 0
    ensures (m + n) % 2 == 0
  {
    var i, j := m / 2, n / 2;
    assert m + n == 2 * (i + j);
  }

  lemma NoCode()
    ensures Code([]) == []
  {
  }

  lemma CodeOne(h: Half)
    ensures Code([h]) == HalfwordBytes(h)
  {
    hide HalfwordBytes;
    assert Code([]) == [];
  }
}
