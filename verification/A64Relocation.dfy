/** What the relocator emits for one instruction, and how the emitted block runs. */
module A64Relocation {
  import opened A64Encoding
  import opened A64Machine

  // `(label << 2) + pc`: the displacement field is added without sign extension.
  function LiteralTarget19(imm: bv19, pc: int): U64 {
    Wrap(4 * (imm as int) + pc)
  }

  function LiteralTarget26(imm: bv26, pc: int): U64 {
    Wrap(4 * (imm as int) + pc)
  }

  // The bytes relocate_write appends for the word `w` read at `pc`.
  function Expand(w: Word, pc: int): (b: seq<bv8>)
    ensures |b| == 4 * Length(Decode(w))
  {
    ExpandAs(Decode(w), w, pc)
  }

  function ExpandAs(i: Inst, w: Word, pc: int): (b: seq<bv8>)
    ensures |b| == 4 * Length(i)
  {
    hide WordBytes, AddressBytes, LdrRegImmWord, LdrRegRegOffsetWord, BImmWord, BrRegWord, BlrRegWord, SetImm19, Wrap;
    match i
    case LdrLit(_, _, rt, imm) =>
      WordBytes(LdrRegImmWord(rt, 8)) + WordBytes(BImmWord(0xc)) + AddressBytes(LiteralTarget19(imm, pc))
      + WordBytes(LdrRegRegOffsetWord(rt, rt, 0))
    case CmpBr(_, _, _, imm) =>
      WordBytes(SetImm19(w, 2)) + WordBytes(BImmWord(0x14)) + Redirect(LiteralTarget19(imm, pc))
    case BCond(_, imm) =>
      WordBytes(SetImm19(w, 2)) + WordBytes(BImmWord(0x14)) + Redirect(LiteralTarget19(imm, pc))
    case Branch(disp) =>
      Redirect(LiteralTarget26(disp, pc))
    case BranchLink(disp) =>
      WordBytes(LdrRegImmWord(17, 0xc)) + WordBytes(BlrRegWord(17)) + WordBytes(BImmWord(0xc))
      + AddressBytes(LiteralTarget26(disp, pc))
    case _ => WordBytes(w)
  }

  // Its length in words.
  function Length(i: Inst): (n: nat)
    ensures 1 <= n <= 6
  {
    match i
    case LdrLit(_, _, _, _) => 5
    case CmpBr(_, _, _, _) => 6
    case BCond(_, _) => 6
    case Branch(_) => 4
    case BranchLink(_) => 5
    case _ => 1
  }

  // ----- decoding what the writer emits -----

  lemma DecodeEmitted(r: bv5)
    ensures Decode(LdrRegImmWord(r, 8)) == LdrLit(1, false, r, 2)
    ensures Decode(LdrRegImmWord(r, 0xc)) == LdrLit(1, false, r, 3)
    ensures Decode(LdrRegImmWord(r, 0x10)) == LdrLit(1, false, r, 4)
    ensures Decode(LdrRegRegOffsetWord(r, r, 0)) == LdrImm(r, r, 0)
    ensures Decode(BrRegWord(r)) == Br(r)
    ensures Decode(BlrRegWord(r)) == Blr(r)
  {
  }

  lemma DecodeHops()
    ensures Decode(BImmWord(0xc)) == Branch(3)
    ensures Decode(BImmWord(0x14)) == Branch(5)
  {
  }

  // The same conditional branch, two words ahead.
  function Retargeted(i: Inst): Inst {
    match i
    case CmpBr(is64, nonzero, rt, _) => CmpBr(is64, nonzero, rt, 2)
    case BCond(cond, _) => BCond(cond, 2)
    case _ => i
  }

  // BIT32SET retargets a compare-and-branch or conditional branch and keeps its condition.
  lemma DecodeRetargeted(w: Word)
    requires Decode(w).CmpBr? || Decode(w).BCond?
    ensures Decode(SetImm19(w, 2)) == Retargeted(Decode(w))
  {
  }

  // ----- one emitted instruction at a time -----

  lemma StepIs(exec: Exec, s: State, w: Word, i: Inst)
    requires BytesAt(s.core.mem, s.pc, WordBytes(w)) && Decode(w) == i
    ensures Step(exec, s) == Execute(exec, i, w, s)
  {
    hide Decode, Execute;
    FetchWord(s.core.mem, s.pc, w);
  }

  lemma StepLoadsLiteral(exec: Exec, s: State, w: Word, r: bv5, imm: bv19, n: U64)
    requires Decode(w) == LdrLit(1, false, r, imm) && 0 <= SignExtend19(imm) <= 4
    requires BytesAt(s.core.mem, s.pc, WordBytes(w))
    requires BytesAt(s.core.mem, s.pc + 4 * SignExtend19(imm), AddressBytes(n))
    requires 0 <= s.pc < TWO_64 - 0x10
    ensures Step(exec, s) == State(SetX(s.core, r, n), s.pc + 4)
  {
    hide Decode, AddressBytes, WordBytes, SetX, SignExtend19, Read64;
    ReadAddress(s.core.mem, s.pc + 4 * SignExtend19(imm), n);
    StepIs(exec, s, w, LdrLit(1, false, r, imm));
  }

  lemma StepHops(exec: Exec, s: State, off: bv64)
    requires off == 0xc || off == 0x14
    requires BytesAt(s.core.mem, s.pc, WordBytes(BImmWord(off)))
    requires 0 <= s.pc < TWO_64 - 0x14
    ensures Step(exec, s) == State(s.core, s.pc + off as int)
  {
    hide Decode, BImmWord, WordBytes;
    DecodeHops();
    StepIs(exec, s, BImmWord(off), Branch(if off == 0xc then 3 else 5));
  }

  lemma StepJumps(exec: Exec, s: State, r: bv5)
    requires BytesAt(s.core.mem, s.pc, WordBytes(BrRegWord(r)))
    ensures Step(exec, s) == State(s.core, X(s.core, r))
  {
    hide Decode, BrRegWord, WordBytes;
    DecodeEmitted(r);
    StepIs(exec, s, BrRegWord(r), Br(r));
  }

  // ----- one expanded block -----

  // Offsets of the words of a block that are instructions; the others are its inline literal.
  function CodeOffsets(i: Inst): set<int> {
    match i
    case LdrLit(_, _, _, _) => {0, 4, 16}
    case CmpBr(_, _, _, _) => {0, 4, 8, 12}
    case BCond(_, _) => {0, 4, 8, 12}
    case Branch(_) => {0, 4}
    case BranchLink(_) => {0, 4, 8}
    case _ => {0}
  }

  // How many instructions of the block run before control leaves it.
  function BlockSteps(i: Inst, c: Core): nat {
    match i
    case LdrLit(_, _, _, _) => 3
    case CmpBr(_, _, _, _) => if Transfers(i, c) then 3 else 2
    case BCond(_, _) => if Transfers(i, c) then 3 else 2
    case Branch(_) => 2
    case BranchLink(_) => 2
    case _ => 1
  }

  // The state in which control leaves the block at `s.pc` that replaces the word `w` of address `pc`.
  function BlockResult(exec: Exec, i: Inst, w: Word, pc: int, s: State): State {
    match i
    case LdrLit(_, _, rt, imm) =>
      var c := SetX(s.core, rt, LiteralTarget19(imm, pc));
      State(SetX(c, rt, Read64(c.mem, Base(c, rt))), s.pc + 20)
    case CmpBr(_, _, _, imm) =>
      if Transfers(i, s.core) then Leave(s.core, LiteralTarget19(imm, pc)) else State(s.core, s.pc + 24)
    case BCond(_, imm) =>
      if Transfers(i, s.core) then Leave(s.core, LiteralTarget19(imm, pc)) else State(s.core, s.pc + 24)
    case Branch(disp) => Leave(s.core, LiteralTarget26(disp, pc))
    case BranchLink(disp) =>
      var target := LiteralTarget26(disp, pc);
      State(SetX(SetX(s.core, 17, target), 30, Wrap(s.pc + 8)), target)
    case _ => Execute(exec, i, w, s)
  }

  function Leave(c: Core, target: U64): State {
    State(SetX(c, 17, target), target)
  }

  lemma RunTwo(exec: Exec, s: State, s1: State, s2: State, code: iset<int>)
    requires Step(exec, s) == s1 && Step(exec, s1) == s2 && s.pc in code && s1.pc in code
    ensures Run(exec, s, 2) == s2 && FetchesFrom(exec, s, 2, code)
  {
    hide Step;
    assert Run(exec, s1, 1) == Run(exec, s2, 0) == s2;
    assert FetchesFrom(exec, s2, 0, code) && FetchesFrom(exec, s1, 1, code);
  }

  lemma RunThree(exec: Exec, s: State, s1: State, s2: State, s3: State, code: iset<int>)
    requires Step(exec, s) == s1 && Step(exec, s1) == s2 && Step(exec, s2) == s3
    requires s.pc in code && s1.pc in code && s2.pc in code
    ensures Run(exec, s, 3) == s3 && FetchesFrom(exec, s, 3, code)
  {
    hide Step;
    RunTwo(exec, s1, s2, s3, code);
  }

  // ldr x17, #8; br x17; .quad n -- goes to n, clobbering only X17.
  lemma RunRedirect(exec: Exec, s: State, n: U64, code: iset<int>)
    requires BytesAt(s.core.mem, s.pc, Redirect(n)) && 0 <= s.pc < TWO_64 - 0x10
    requires s.pc in code && s.pc + 4 in code
    ensures Run(exec, s, 2) == Leave(s.core, n) && FetchesFrom(exec, s, 2, code)
  {
    hide Decode, WordBytes, AddressBytes, LdrRegImmWord, BrRegWord, Step;
    var ldr, br := LdrRegImmWord(17, 8), BrRegWord(17);
    BytesAtSplit(s.core.mem, s.pc, WordBytes(ldr) + WordBytes(br), AddressBytes(n));
    BytesAtSplit(s.core.mem, s.pc, WordBytes(ldr), WordBytes(br));
    DecodeEmitted(17);
    StepLoadsLiteral(exec, s, ldr, 17, 2, n);
    var s1 := State(SetX(s.core, 17, n), s.pc + 4);
    StepJumps(exec, s1, 17);
    RunTwo(exec, s, s1, Leave(s.core, n), code);
  }

  lemma BlockLoadLiteral(exec: Exec, rt: bv5, n: U64, s: State, code: iset<int>)
    requires BytesAt(s.core.mem, s.pc, WordBytes(LdrRegImmWord(rt, 8)) + WordBytes(BImmWord(0xc)) + AddressBytes(n)
                                       + WordBytes(LdrRegRegOffsetWord(rt, rt, 0)))
    requires 0 <= s.pc < TWO_64 - 0x20
    requires s.pc in code && s.pc + 4 in code && s.pc + 16 in code
    ensures var c := SetX(s.core, rt, n);
            Run(exec, s, 3) == State(SetX(c, rt, Read64(c.mem, Base(c, rt))), s.pc + 20)
    ensures FetchesFrom(exec, s, 3, code)
  {
    hide Decode, WordBytes, AddressBytes, LdrRegImmWord, LdrRegRegOffsetWord, BImmWord, Step, Read64;
    var ldr, b, load := LdrRegImmWord(rt, 8), BImmWord(0xc), LdrRegRegOffsetWord(rt, rt, 0);
    var m := s.core.mem;
    BytesAtSplit(m, s.pc, WordBytes(ldr) + WordBytes(b) + AddressBytes(n), WordBytes(load));
    BytesAtSplit(m, s.pc, WordBytes(ldr) + WordBytes(b), AddressBytes(n));
    BytesAtSplit(m, s.pc, WordBytes(ldr), WordBytes(b));
    DecodeEmitted(rt);
    StepLoadsLiteral(exec, s, ldr, rt, 2, n);
    var s1 := State(SetX(s.core, rt, n), s.pc + 4);
    StepHops(exec, s1, 0xc);
    var s2 := State(s1.core, s.pc + 16);
    StepIs(exec, s2, load, LdrImm(rt, rt, 0));
    RunThree(exec, s, s1, s2, Step(exec, s2), code);
  }

  lemma BlockBranchLink(exec: Exec, n: U64, s: State, code: iset<int>)
    requires BytesAt(s.core.mem, s.pc, WordBytes(LdrRegImmWord(17, 0xc)) + WordBytes(BlrRegWord(17))
                                       + WordBytes(BImmWord(0xc)) + AddressBytes(n))
    requires 0 <= s.pc < TWO_64 - 0x20
    requires s.pc in code && s.pc + 4 in code
    ensures Run(exec, s, 2) == State(SetX(SetX(s.core, 17, n), 30, Wrap(s.pc + 8)), n)
    ensures FetchesFrom(exec, s, 2, code)
    ensures BytesAt(s.core.mem, s.pc + 8, WordBytes(BImmWord(0xc)))
  {
    hide Decode, WordBytes, AddressBytes, LdrRegImmWord, BlrRegWord, BImmWord, Step;
    var ldr, blr, b := LdrRegImmWord(17, 0xc), BlrRegWord(17), BImmWord(0xc);
    var m := s.core.mem;
    BytesAtSplit(m, s.pc, WordBytes(ldr) + WordBytes(blr) + WordBytes(b), AddressBytes(n));
    BytesAtSplit(m, s.pc, WordBytes(ldr) + WordBytes(blr), WordBytes(b));
    BytesAtSplit(m, s.pc, WordBytes(ldr), WordBytes(blr));
    DecodeEmitted(17);
    StepLoadsLiteral(exec, s, ldr, 17, 3, n);
    var s1 := State(SetX(s.core, 17, n), s.pc + 4);
    StepIs(exec, s1, blr, Blr(17));
    RunTwo(exec, s, s1, State(SetX(s1.core, 30, s.pc + 8), n), code);
  }

  lemma BlockConditional(exec: Exec, w: Word, n: U64, s: State, code: iset<int>)
    requires Decode(w).CmpBr? || Decode(w).BCond?
    requires BytesAt(s.core.mem, s.pc, WordBytes(SetImm19(w, 2)) + WordBytes(BImmWord(0x14)) + Redirect(n))
    requires 0 <= s.pc < TWO_64 - 0x20
    requires s.pc in code && s.pc + 4 in code && s.pc + 8 in code && s.pc + 12 in code
    ensures var taken := Transfers(Decode(w), s.core);
            && Run(exec, s, if taken then 3 else 2) == (if taken then Leave(s.core, n) else State(s.core, s.pc + 24))
            && FetchesFrom(exec, s, if taken then 3 else 2, code)
  {
    hide Decode, WordBytes, AddressBytes, Redirect, SetImm19, BImmWord, Step, ConditionHolds;
    var near, b := SetImm19(w, 2), BImmWord(0x14);
    var m := s.core.mem;
    BytesAtSplit(m, s.pc, WordBytes(near) + WordBytes(b), Redirect(n));
    BytesAtSplit(m, s.pc, WordBytes(near), WordBytes(b));
    DecodeRetargeted(w);
    StepIs(exec, s, near, Retargeted(Decode(w)));
    if Transfers(Decode(w), s.core) {
      var s1 := State(s.core, s.pc + 8);
      RunRedirect(exec, s1, n, code);
      assert Run(exec, s, 3) == Run(exec, s1, 2);
    } else {
      var s1 := State(s.core, s.pc + 4);
      StepHops(exec, s1, 0x14);
      RunTwo(exec, s, s1, State(s.core, s.pc + 24), code);
    }
  }

  /** The emitted block runs as `BlockResult` says and never fetches its literal as an instruction. */
  lemma BlockRuns(exec: Exec, w: Word, pc: int, s: State, code: iset<int>)
    requires BytesAt(s.core.mem, s.pc, Expand(w, pc)) && 0 <= s.pc < TWO_64 - 0x20
    requires forall o :: o in CodeOffsets(Decode(w)) ==> s.pc + o in code
    ensures Run(exec, s, BlockSteps(Decode(w), s.core)) == BlockResult(exec, Decode(w), w, pc, s)
    ensures FetchesFrom(exec, s, BlockSteps(Decode(w), s.core), code)
  {
    hide Decode, WordBytes, AddressBytes, Redirect, LdrRegImmWord, LdrRegRegOffsetWord, BImmWord, BrRegWord,
      BlrRegWord, SetImm19, Step, Execute, ConditionHolds, Transfers, Read64, Wrap;
    assert 0 in CodeOffsets(Decode(w)) && s.pc + 0 in code;
    match Decode(w) {
      case LdrLit(_, _, rt, imm) =>
        assert 4 in CodeOffsets(Decode(w)) && 16 in CodeOffsets(Decode(w));
        BlockLoadLiteral(exec, rt, LiteralTarget19(imm, pc), s, code);
      case CmpBr(_, _, _, imm) =>
        assert forall o :: o in {4, 8, 12} ==> o in CodeOffsets(Decode(w));
        BlockConditional(exec, w, LiteralTarget19(imm, pc), s, code);
      case BCond(_, imm) =>
        assert forall o :: o in {4, 8, 12} ==> o in CodeOffsets(Decode(w));
        BlockConditional(exec, w, LiteralTarget19(imm, pc), s, code);
      case Branch(disp) =>
        assert 4 in CodeOffsets(Decode(w));
        RunRedirect(exec, s, LiteralTarget26(disp, pc), code);
      case BranchLink(disp) =>
        assert 4 in CodeOffsets(Decode(w));
        BlockBranchLink(exec, LiteralTarget26(disp, pc), s, code);
      case _ =>
        StepIs(exec, s, w, Decode(w));
        assert Run(exec, s, 1) == Run(exec, Step(exec, s), 0);
        assert FetchesFrom(exec, Step(exec, s), 0, code);
    }
  }

  // ----- a whole window -----

  // Number of words emitted for the words `ws`.
  function OutIndex(ws: seq<Word>): nat {
    if ws == [] then 0 else OutIndex(ws[..|ws| - 1]) + Length(Decode(ws[|ws| - 1]))
  }

  // The bytes emitted for the words `ws` read from `base` on.
  function ExpandAll(ws: seq<Word>, base: int): (b: seq<bv8>)
    ensures |b| == 4 * OutIndex(ws)
  {
    if ws == [] then []
    else ExpandAll(ws[..|ws| - 1], base) + Expand(ws[|ws| - 1], base + 4 * (|ws| - 1))
  }

  // on_invoke_trampoline: the relocated window and the jump back behind it.
  function Trampoline(ws: seq<Word>, base: U64): (b: seq<bv8>)
    requires base + 4 * |ws| < TWO_64
  {
    ExpandAll(ws, base) + Redirect(base + 4 * |ws|)
  }

  // Where the block of word `i` starts in a trampoline placed at `t`; for i == |ws|, the jump back.
  function BlockStart(ws: seq<Word>, t: int, i: nat): int
    requires i <= |ws|
  {
    t + 4 * OutIndex(ws[..i])
  }

  lemma BlockStartNext(ws: seq<Word>, t: int, i: nat)
    requires i < |ws|
    ensures BlockStart(ws, t, i + 1) == BlockStart(ws, t, i) + 4 * Length(Decode(ws[i]))
  {
    hide Decode;
    assert ws[..i + 1][..i] == ws[..i];
  }

  lemma BlockBefore(ws: seq<Word>, t: int, i: nat)
    requires i <= |ws|
    ensures t <= BlockStart(ws, t, i) <= BlockStart(ws, t, |ws|)
    decreases |ws| - i
  {
    hide Decode;
    if i < |ws| {
      BlockStartNext(ws, t, i);
      BlockBefore(ws, t, i + 1);
    }
  }

  lemma {:induction false} BlockAt(m: Mem, ws: seq<Word>, base: int, t: int, i: nat)
    requires BytesAt(m, t, ExpandAll(ws, base)) && i < |ws|
    ensures BytesAt(m, BlockStart(ws, t, i), Expand(ws[i], base + 4 * i))
    decreases |ws|
  {
    hide Expand, Decode;
    var n := |ws| - 1;
    BytesAtSplit(m, t, ExpandAll(ws[..n], base), Expand(ws[n], base + 4 * n));
    if i < n {
      BlockAt(m, ws[..n], base, t, i);
      assert ws[..n][..i] == ws[..i];
    }
  }
}
