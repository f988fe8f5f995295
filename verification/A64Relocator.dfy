/** The arm64 relocator of relocator-arm64.c: reads words at one address, emits their replacement for another. */
module A64Relocator {
  import opened A64Encoding
  import opened A64Machine
  import opened A64Relocation
  import opened A64Reader
  import opened A64Writer
  import Asm = A64AssemblyCore

  datatype IoIndex = IoIndex(inputIndex: nat, outputIndex: nat)

  function Words(ctxs: seq<InstCtx>): (ws: seq<Word>)
    ensures |ws| == |ctxs| && forall i :: 0 <= i < |ws| ==> ws[i] == ctxs[i].bytes
  {
    seq(|ctxs|, i requires 0 <= i < |ctxs| => ctxs[i].bytes)
  }

  // The replacement of a sequence of instruction contexts, each at its own pc.
  function ExpandCtxs(ctxs: seq<InstCtx>): (b: seq<bv8>)
    ensures |b| == 4 * OutIndex(Words(ctxs))
  {
    hide Expand, Decode;
    if ctxs == [] then []
    else
      var last := ctxs[|ctxs| - 1];
      assert Words(ctxs[..|ctxs| - 1]) == Words(ctxs)[..|ctxs| - 1];
      ExpandCtxs(ctxs[..|ctxs| - 1]) + Expand(last.bytes, last.pc)
  }

  lemma {:induction false} ExpandCtxsConcat(a: seq<InstCtx>, b: seq<InstCtx>)
    ensures ExpandCtxs(a + b) == ExpandCtxs(a) + ExpandCtxs(b)
  {
    hide Expand, Decode, OutIndex, Words;
    if b == [] {
      assert a + b == a && ExpandCtxs(a) + [] == ExpandCtxs(a);
    } else {
      var n, ab := |b| - 1, a + b;
      var last := Expand(b[n].bytes, b[n].pc);
      assert ab[..|ab| - 1] == a + b[..n] && ab[|ab| - 1] == b[n];
      ExpandCtxsConcat(a, b[..n]);
      assert (ExpandCtxs(a) + ExpandCtxs(b[..n])) + last == ExpandCtxs(a) + (ExpandCtxs(b[..n]) + last);
    }
  }

  /** A window of at most n words expands to at most 6n words and at least n. */
  lemma {:induction false} OutIndexBounds(ws: seq<Word>)
    ensures |ws| <= OutIndex(ws) <= 6 * |ws|
  {
    hide Decode;
    if ws != [] {
      OutIndexBounds(ws[..|ws| - 1]);
    }
  }

  lemma EmptyExpansion()
    ensures ExpandCtxs([]) == []
  {
  }

  lemma ExpandSplit(ctxs: seq<InstCtx>, i: nat, j: nat, k: nat)
    requires i <= j <= k <= |ctxs|
    ensures ExpandCtxs(ctxs[i..j]) + ExpandCtxs(ctxs[j..k]) == ExpandCtxs(ctxs[i..k])
  {
    hide ExpandCtxs;
    assert ctxs[i..j] + ctxs[j..k] == ctxs[i..k];
    ExpandCtxsConcat(ctxs[i..j], ctxs[j..k]);
  }

  lemma ExpandOne(ctxs: seq<InstCtx>, k: nat)
    requires k < |ctxs|
    ensures ExpandCtxs(ctxs[k..k + 1]) == Expand(ctxs[k].bytes, ctxs[k].pc)
  {
    hide Expand, OutIndex, Words;
    assert ctxs[k..k + 1][..0] == [];
    EmptyExpansion();
  }

  // Contexts read consecutively from `base` expand to the window's expansion.
  lemma {:induction false} ExpandConsecutive(ctxs: seq<InstCtx>, base: int)
    requires forall i :: 0 <= i < |ctxs| ==> ctxs[i].pc == base + 4 * i
    ensures ExpandCtxs(ctxs) == ExpandAll(Words(ctxs), base)
  {
    hide Expand, Decode;
    if ctxs != [] {
      var n := |ctxs| - 1;
      assert Words(ctxs)[..n] == Words(ctxs[..n]);
      ExpandConsecutive(ctxs[..n], base);
    }
  }

  // The input/output map and the bytes after relocating ctxs[..|io|] into an empty writer: nothing else has been
  // written, and each instruction's output index is the length of everything before it.
  ghost predicate InStep(out: seq<bv8>, ctxs: seq<InstCtx>, io: seq<IoIndex>) {
    && |io| <= |ctxs|
    && out == ExpandCtxs(ctxs[..|io|])
    && forall k :: 0 <= k < |io| ==> io[k] == IoIndex(k, OutIndex(Words(ctxs[..k])))
  }

  /** Reading another instruction keeps the map in step. */
  lemma ReadKeepsInStep(out: seq<bv8>, ctxs: seq<InstCtx>, io: seq<IoIndex>, ctx: InstCtx)
    requires InStep(out, ctxs, io)
    ensures InStep(out, ctxs + [ctx], io)
  {
    hide Expand, OutIndex, Words;
    var ctxs' := ctxs + [ctx];
    assert forall k :: 0 <= k <= |ctxs| ==> ctxs'[..k] == ctxs[..k];
  }

  /** Relocating the next instruction keeps the map in step. */
  lemma WriteKeepsInStep(out: seq<bv8>, ctxs: seq<InstCtx>, io: seq<IoIndex>, written: nat)
    requires InStep(out, ctxs, io) && |io| < |ctxs| && |out| == 4 * written
    ensures InStep(out + Expand(ctxs[|io|].bytes, ctxs[|io|].pc), ctxs, io + [IoIndex(|io|, written)])
  {
    hide Expand, OutIndex, Words;
    var n := |io|;
    assert ctxs[..n + 1][..n] == ctxs[..n];
  }

  // Index, within the words of an expansion, of the high half of its literal.
  function LiteralIndex(i: Inst): nat
    requires Rewritten(i)
  {
    match i
    case CmpBr(_, _, _, _) => 5
    case BCond(_, _) => 5
    case BranchLink(_) => 4
    case _ => 3
  }

  // The literal contexts registered for the replacement of `ctx`, written after the first n words of `out`.
  function ReplacementLiterals(out: seq<InstCtx>, n: nat, ctx: InstCtx): seq<InstCtx> {
    var i := Decode(ctx.bytes);
    if Rewritten(i) && n + LiteralIndex(i) < |out| then [out[n + LiteralIndex(i)]] else []
  }

  predicate Rewritten(i: Inst) {
    i.LdrLit? || i.CmpBr? || i.BCond? || i.Branch? || i.BranchLink?
  }

  lemma FieldsOf(w: Word)
    ensures Decode(w).LdrLit? ==> Decode(w).rt == Rt(w) && Decode(w).imm == Imm19(w)
    ensures Decode(w).CmpBr? || Decode(w).BCond? ==> Decode(w).imm == Imm19(w)
    ensures Decode(w).Branch? || Decode(w).BranchLink? ==> Decode(w).disp == Imm26(w)
  {
    hide Imm19, Imm26, Rt;
  }

  lemma CopiedVerbatim(w: Word, pc: int)
    requires Asm.ClassOf(Decode(w)) == Asm.ARM64_INST_END
    ensures Expand(w, pc) == WordBytes(w) && !Rewritten(Decode(w))
  {
    hide Decode, WordBytes;
  }

  class Relocator {
    const table: Asm.InstTable
    var input: Reader
    var output: Writer
    var literalCTXs: seq<InstCtx>
    var ioIndexs: seq<IoIndex>

    ghost predicate Valid()
      reads this, input, input.Repr(), output, output.Repr(), table, table.entries
    {
      && table.Valid() && input.Valid() && output.Valid()
      && this !in input.Repr() && this !in output.Repr() && input.Repr() !! output.Repr()
      && table !in input.Repr() + output.Repr() && table.entries !in input.Repr() + output.Repr()
      && |ioIndexs| <= |input.instCTXs|
    }

    ghost function Repr(): set<object>
      reads this, input, output, output.instBytes, input.instBytes
    {
      {this} + input.Repr() + output.Repr()
    }

    constructor (table: Asm.InstTable, input: Reader, output: Writer)
      requires table.Valid() && input.Valid() && output.Valid()
      requires input.Repr() !! output.Repr()
      requires table !in input.Repr() + output.Repr() && table.entries !in input.Repr() + output.Repr()
      ensures this.table == table && this.input == input && this.output == output
      ensures Valid() && ioIndexs == [] && literalCTXs == []
    {
      this.table := table;
      this.input := input;
      this.output := output;
      ioIndexs := [];
      literalCTXs := [];
    }

    // Remembers the last word written, the high half of an inline literal.
    method RegisterLiteralInstCTX(ctx: InstCtx)
      modifies this`literalCTXs
      ensures literalCTXs == old(literalCTXs) + [ctx]
    {
      literalCTXs := literalCTXs + [ctx];
    }

    method RewriteLoadLiteral(ctx: InstCtx)
      requires output.Valid() && this !in output.Repr() && Decode(ctx.bytes).LdrLit?
      modifies this`literalCTXs, output.Repr()
      ensures output.Valid() && fresh(output.Repr() - old(output.Repr())) && output.startPc == old(output.startPc)
      ensures output.Bytes() == old(output.Bytes()) + Expand(ctx.bytes, ctx.pc)
      ensures old(output.instCTXs) <= output.instCTXs
      ensures |output.instCTXs| == |old(output.instCTXs)| + 5
      ensures literalCTXs == old(literalCTXs) + [output.instCTXs[|old(output.instCTXs)| + 3]]
    {
      hide Decode, WordBytes, LdrRegImmWord, BImmWord, LdrRegRegOffsetWord, BrRegWord, BlrRegWord, SetImm19,
        AddressBytes, WordAt, Wrap, Imm19, Imm26, Rt, LiteralTarget19, LiteralTarget26, Redirect, Writer.Valid,
        Writer.Bytes, Contexts;
      FieldsOf(ctx.bytes);
      var rt, target := Rt(ctx.bytes), LiteralTarget19(Imm19(ctx.bytes), ctx.pc);
      output.PutLdrRegImm(rt, 0x8);
      output.PutBImm(0xc);
      output.PutBytes(AddressBytes(target));
      RegisterLiteralInstCTX(output.instCTXs[|output.instCTXs| - 1]);
      output.PutLdrRegRegOffset(rt, rt, 0);
    }

    method RewriteBaseCmpBranch(ctx: InstCtx)
      requires output.Valid() && this !in output.Repr() && Decode(ctx.bytes).CmpBr?
      modifies this`literalCTXs, output.Repr()
      ensures output.Valid() && fresh(output.Repr() - old(output.Repr())) && output.startPc == old(output.startPc)
      ensures output.Bytes() == old(output.Bytes()) + Expand(ctx.bytes, ctx.pc)
      ensures old(output.instCTXs) <= output.instCTXs
      ensures |output.instCTXs| == |old(output.instCTXs)| + 6
      ensures literalCTXs == old(literalCTXs) + [output.instCTXs[|old(output.instCTXs)| + 5]]
    {
      hide Decode, WordBytes, LdrRegImmWord, BImmWord, LdrRegRegOffsetWord, BrRegWord, BlrRegWord, SetImm19,
        AddressBytes, WordAt, Wrap, Imm19, Imm26, Rt, LiteralTarget19, LiteralTarget26, Redirect, Writer.Valid,
        Writer.Bytes, Contexts;
      FieldsOf(ctx.bytes);
      var target := LiteralTarget19(Imm19(ctx.bytes), ctx.pc);
      var inst32 := SetImm19(ctx.bytes, 0x8 >> 2);
      output.PutBytes(WordBytes(inst32));
      output.PutBImm(0x14);
      output.PutRedirect(target);
      RegisterLiteralInstCTX(output.instCTXs[|output.instCTXs| - 1]);
    }

    method RewriteBranchCond(ctx: InstCtx)
      requires output.Valid() && this !in output.Repr() && Decode(ctx.bytes).BCond?
      modifies this`literalCTXs, output.Repr()
      ensures output.Valid() && fresh(output.Repr() - old(output.Repr())) && output.startPc == old(output.startPc)
      ensures output.Bytes() == old(output.Bytes()) + Expand(ctx.bytes, ctx.pc)
      ensures old(output.instCTXs) <= output.instCTXs
      ensures |output.instCTXs| == |old(output.instCTXs)| + 6
      ensures literalCTXs == old(literalCTXs) + [output.instCTXs[|old(output.instCTXs)| + 5]]
    {
      hide Decode, WordBytes, LdrRegImmWord, BImmWord, LdrRegRegOffsetWord, BrRegWord, BlrRegWord, SetImm19,
        AddressBytes, WordAt, Wrap, Imm19, Imm26, Rt, LiteralTarget19, LiteralTarget26, Redirect, Writer.Valid,
        Writer.Bytes, Contexts;
      FieldsOf(ctx.bytes);
      var target := LiteralTarget19(Imm19(ctx.bytes), ctx.pc);
      var inst32 := SetImm19(ctx.bytes, 0x8 >> 2);
      output.PutBytes(WordBytes(inst32));
      output.PutBImm(0x14);
      output.PutRedirect(target);
      RegisterLiteralInstCTX(output.instCTXs[|output.instCTXs| - 1]);
    }

    method RewriteB(ctx: InstCtx)
      requires output.Valid() && this !in output.Repr() && Decode(ctx.bytes).Branch?
      modifies this`literalCTXs, output.Repr()
      ensures output.Valid() && fresh(output.Repr() - old(output.Repr())) && output.startPc == old(output.startPc)
      ensures output.Bytes() == old(output.Bytes()) + Expand(ctx.bytes, ctx.pc)
      ensures old(output.instCTXs) <= output.instCTXs
      ensures |output.instCTXs| == |old(output.instCTXs)| + 4
      ensures literalCTXs == old(literalCTXs) + [output.instCTXs[|old(output.instCTXs)| + 3]]
    {
      hide Decode, WordBytes, LdrRegImmWord, BImmWord, LdrRegRegOffsetWord, BrRegWord, BlrRegWord, SetImm19,
        AddressBytes, WordAt, Wrap, Imm19, Imm26, Rt, LiteralTarget19, LiteralTarget26, Redirect, Writer.Valid,
        Writer.Bytes, Contexts;
      FieldsOf(ctx.bytes);
      var target := LiteralTarget26(Imm26(ctx.bytes), ctx.pc);
      output.PutRedirect(target);
      RegisterLiteralInstCTX(output.instCTXs[|output.instCTXs| - 1]);
    }

    method RewriteBL(ctx: InstCtx)
      requires output.Valid() && this !in output.Repr() && Decode(ctx.bytes).BranchLink?
      modifies this`literalCTXs, output.Repr()
      ensures output.Valid() && fresh(output.Repr() - old(output.Repr())) && output.startPc == old(output.startPc)
      ensures output.Bytes() == old(output.Bytes()) + Expand(ctx.bytes, ctx.pc)
      ensures old(output.instCTXs) <= output.instCTXs
      ensures |output.instCTXs| == |old(output.instCTXs)| + 5
      ensures literalCTXs == old(literalCTXs) + [output.instCTXs[|old(output.instCTXs)| + 4]]
    {
      hide Decode, WordBytes, LdrRegImmWord, BImmWord, LdrRegRegOffsetWord, BrRegWord, BlrRegWord, SetImm19,
        AddressBytes, WordAt, Wrap, Imm19, Imm26, Rt, LiteralTarget19, LiteralTarget26, Redirect, Writer.Valid,
        Writer.Bytes, Contexts;
      FieldsOf(ctx.bytes);
      var target := LiteralTarget26(Imm26(ctx.bytes), ctx.pc);
      output.PutLdrRegImm(17, 0xc);
      output.PutBlrReg(17);
      output.PutBImm(0xc);
      output.PutBytes(AddressBytes(target));
      RegisterLiteralInstCTX(output.instCTXs[|output.instCTXs| - 1]);
    }

    // The switch of relocate_write.
    method WriteReplacement(ctx: InstCtx)
      requires output.Valid() && this !in output.Repr() && table.Valid()
      modifies this`literalCTXs, output.Repr()
      ensures output.Valid() && fresh(output.Repr() - old(output.Repr())) && output.startPc == old(output.startPc)
      ensures output.Bytes() == old(output.Bytes()) + Expand(ctx.bytes, ctx.pc)
      ensures old(output.instCTXs) <= output.instCTXs
      ensures literalCTXs == old(literalCTXs) + ReplacementLiterals(output.instCTXs, |old(output.instCTXs)|, ctx)
    {
      hide Decode, WordBytes, Writer.Valid, Writer.Bytes, Expand;
      var id := table.GetInstType(ctx.bytes);
      if id == Asm.LOAD_LITERAL {
        RewriteLoadLiteral(ctx);
      } else if id == Asm.BASE_CMP_BRANCH {
        RewriteBaseCmpBranch(ctx);
      } else if id == Asm.BRANCH_COND {
        RewriteBranchCond(ctx);
      } else if id == Asm.B {
        RewriteB(ctx);
      } else if id == Asm.BL {
        RewriteBL(ctx);
      } else {
        CopiedVerbatim(ctx.bytes, ctx.pc);
        output.PutBytes(WordBytes(ctx.bytes));
      }
    }

    method RelocateWrite()
      requires Valid()
      modifies this`literalCTXs, this`ioIndexs, output.Repr()
      ensures Valid() && fresh(output.Repr() - old(output.Repr())) && output.startPc == old(output.startPc)
      ensures |old(ioIndexs)| < |input.instCTXs| ==>
                var n, ctx := |old(ioIndexs)|, input.instCTXs[|old(ioIndexs)|];
                && ioIndexs == old(ioIndexs) + [IoIndex(n, |old(output.instCTXs)|)]
                && old(output.instCTXs) <= output.instCTXs
                && literalCTXs == old(literalCTXs) + ReplacementLiterals(output.instCTXs, |old(output.instCTXs)|, ctx)
      ensures |old(ioIndexs)| <= |ioIndexs|
      ensures output.Bytes() == old(output.Bytes()) + ExpandCtxs(input.instCTXs[|old(ioIndexs)|..|ioIndexs|])
      ensures |old(ioIndexs)| == |input.instCTXs| ==>
                ioIndexs == old(ioIndexs) && literalCTXs == old(literalCTXs)
    {
      hide Expand, Writer.Bytes, ReplacementLiterals, ExpandCtxs;
      var done := |ioIndexs|;
      EmptyExpansion();
      if |input.instCTXs| <= done {
        assert input.instCTXs[done..done] == [];
        return;
      }
      var ctx := input.instCTXs[done];
      ioIndexs := ioIndexs + [IoIndex(done, |output.instCTXs|)];
      ExpandOne(input.instCTXs, done);
      WriteReplacement(ctx);
    }

    method RelocateWriteAll()
      requires Valid()
      modifies this`literalCTXs, this`ioIndexs, output.Repr()
      ensures Valid() && fresh(output.Repr() - old(output.Repr())) && output.startPc == old(output.startPc)
      ensures |ioIndexs| == |input.instCTXs| && old(ioIndexs) <= ioIndexs
      ensures output.Bytes() == old(output.Bytes()) + ExpandCtxs(input.instCTXs[|old(ioIndexs)|..])
      ensures |old(ioIndexs)| == |input.instCTXs| ==> ioIndexs == old(ioIndexs) && literalCTXs == old(literalCTXs)
    {
      hide Expand, Writer.Bytes, ReplacementLiterals, Writer.Valid, ExpandCtxs, Asm.InstTable.Valid, Reader.Valid,
        Words, OutIndex;
      ghost var n := |ioIndexs|;
      RelocateWrite();
      while |ioIndexs| < |input.instCTXs|
        invariant n == |input.instCTXs| ==> ioIndexs == old(ioIndexs) && literalCTXs == old(literalCTXs)
        invariant Valid() && fresh(output.Repr() - old(output.Repr())) && output.startPc == old(output.startPc)
        invariant n <= |ioIndexs| && old(ioIndexs) <= ioIndexs
        invariant output.Bytes() == old(output.Bytes()) + ExpandCtxs(input.instCTXs[n..|ioIndexs|])
        decreases |input.instCTXs| - |ioIndexs|
      {
        ghost var k := |ioIndexs|;
        ghost var done := ExpandCtxs(input.instCTXs[n..k]);
        RelocateWrite();
        ghost var more := ExpandCtxs(input.instCTXs[k..|ioIndexs|]);
        ExpandSplit(input.instCTXs, n, k, |ioIndexs|);
        assert (old(output.Bytes()) + done) + more == old(output.Bytes()) + (done + more);
      }
      assert input.instCTXs[n..|ioIndexs|] == input.instCTXs[n..];
    }

    // arm64_relocator_reset resets the reader it holds as well, so the instructions read so far are forgotten.
    method Reset()
      requires Valid()
      modifies Repr()
      ensures Valid() && input == old(input) && output == old(output)
      ensures input.Repr() == old(input.Repr()) && output.Repr() == old(output.Repr())
      ensures input.instCTXs == [] && ioIndexs == [] && literalCTXs == []
      ensures output.Bytes() == [] && output.startPc == 0
    {
      hide Asm.InstTable.Valid;
      input.Reset(0, 0);
      output.Reset(0);
      literalCTXs := [];
      ioIndexs := [];
    }

    /**
     * Relocates everything again for the final address and restores what followed. The reset empties the
     * input, so nothing is relocated again and the saved bytes are what is written back.
     */
    method DoubleWrite(targetAddress: U64)
      requires Valid() && targetAddress % 4 == 0
      modifies Repr()
      ensures Valid() && input == old(input) && output == old(output)
      ensures output.Bytes() == old(output.Bytes()) && output.startPc == 0
      ensures input.instCTXs == [] && ioIndexs == [] && literalCTXs == []
      ensures fresh(output.Repr() - old(output.Repr()))
    {
      hide Asm.InstTable.Valid, ExpandCtxs, Writer.Valid, Reader.Valid, Writer.Bytes;
      var originInstBufferSize := output.Size();
      var tmpInstBuffer := output.Saved();
      output.Reset(targetAddress);
      Reset();
      RelocateWriteAll();
      EmptyExpansion();
      var rewritten := output.Size();
      output.PutBytes(tmpInstBuffer[rewritten..originInstBufferSize]);
    }

    /**
     * Looks for an unconditional branch among the first bytesMin bytes. The class it looks for (BImm) has no
     * table entry, so it finds none and leaves bytesMax as it was, whatever the code.
     */
    static method TryRelocate(table: Asm.InstTable, mem: Mem, address: U64, bytesMin: int, bytesMax: int)
        returns (r: int)
      requires table.Valid()
      ensures r == bytesMax
    {
      hide Decode, Fetch, Contexts;
      var tmpSize, earlyEnd := 0, false;
      var reader := new Reader(address, address);
      var ctx := reader.ReadInst(mem);
      var id := table.GetInstType(ctx.bytes);
      if id == Asm.B_IMM {
        earlyEnd := true;
      }
      tmpSize := tmpSize + ctx.size;
      while tmpSize < bytesMin
        invariant reader.Valid() && fresh(reader.Repr()) && !earlyEnd && table.Valid()
      {
        ctx := reader.ReadInst(mem);
        id := table.GetInstType(ctx.bytes);
        if id == Asm.B_IMM {
          earlyEnd := true;
        }
        tmpSize := tmpSize + ctx.size;
      }
      r := if earlyEnd then bytesMin else bytesMax;
    }
  }
}
