/** The domain of the simulation is exact: outside it the rewrite changes what the instruction does. */
module A64Exactness {
  import opened A64Encoding
  import opened Numbers
  import opened A64Machine
  import opened A64Relocation
  import opened A64Simulation

  // Everything is seen.
  ghost const ALL := View(iset{}, {})

  const LIMIT: int := TWO_64 - 0x40

  // The memory holds w at pc and what it becomes at t.
  ghost predicate InPlace(w: Word, m: Mem, pc: int, t: int) {
    && 0 <= pc < LIMIT && 0 <= t < LIMIT && pc % 4 == 0 && t % 4 == 0
    && Fetch(m, pc) == w && BytesAt(m, t, Expand(w, pc))
  }

  // From one state, stepping at pc and running the block at t until control leaves it come to the same.
  ghost predicate SameOutcome(exec: Exec, w: Word, c: Core, pc: int, t: int) {
    SameResult(Decode(w), c, pc, t, Step(exec, State(c, pc)), Run(exec, State(c, t), BlockSteps(Decode(w), c)))
  }

  ghost predicate SameResult(i: Inst, c: Core, pc: int, t: int, r: State, r': State) {
    if !Transfers(i, c) then
      r.pc == pc + 4 && r'.pc == t + 4 * Length(i) && Agree(r.core, r'.core, ALL)
    else if i.BranchLink? || i.Blr? then
      && r'.pc == r.pc && Agree(r.core, r'.core, Loosen(ALL, {17, 30}))
      && r'.core.x[30] == if i.BranchLink? then t + 8 else t + 4
    else
      SameExit(r, r', ALL)
  }

  // From every state of every memory that holds both, at every 4-aligned placement.
  ghost predicate Faithful(w: Word) {
    forall exec: Exec, c: Core, pc: int, t: int | InPlace(w, c.mem, pc, t) :: SameOutcome(exec, w, c, pc, t)
  }

  // The machine does what the block and the instruction were shown to do.
  lemma OutcomeIs(exec: Exec, w: Word, c: Core, pc: int, t: int)
    requires InPlace(w, c.mem, pc, t)
    ensures SameOutcome(exec, w, c, pc, t)
       <==> SameResult(Decode(w), c, pc, t, Execute(exec, Decode(w), w, State(c, pc)),
                       BlockResult(exec, Decode(w), w, pc, State(c, t)))
  {
    hide Decode, Execute, BlockResult, BlockSteps, Run, Fetch, Expand, BytesAt, SameResult;
    BlockRuns(exec, w, pc, State(c, t), iset{t, t + 4, t + 8, t + 12, t + 16});
  }

  lemma DomainIsFaithful(exec: Exec, w: Word, c: Core, pc: int, t: int)
    requires InDomain(Decode(w)) && InPlace(w, c.mem, pc, t)
    ensures SameOutcome(exec, w, c, pc, t)
  {
    hide Decode, Effect, BlockResult, Destination, Agree, Transfers, SameOutcome, Fetch, BytesAt, Expand;
    var i, s, s' := Decode(w), State(c, pc), State(c, t);
    AgreesWithItself(c, ALL);
    if i.Other? {
      OtherResult(exec, w, c, pc, t);
    } else if Transfers(i, c) {
      assert SafeInst(exec, i, w, s, 0, 0, iset{}, ALL, ALL);
      LeavesAlike(exec, i, w, s, s', 0, 0, iset{}, ALL, ALL);
    } else {
      assert SafeInst(exec, i, w, s, 0, 0, iset{}, ALL, ALL);
      FallsThrough(exec, i, w, s, s', 0, 0, iset{}, ALL, ALL);
    }
    OutcomeIs(exec, w, c, pc, t);
  }

  lemma OtherResult(exec: Exec, w: Word, c: Core, pc: int, t: int)
    requires Decode(w).Other?
    ensures SameResult(Decode(w), c, pc, t, Execute(exec, Decode(w), w, State(c, pc)),
                       BlockResult(exec, Decode(w), w, pc, State(c, t)))
  {
    hide Decode;
    AgreesWithItself(exec(w, c), ALL);
  }

  // ----- witnesses outside the domain: w at PC, its block at T -----

  const PC: int := 0x100_0000
  const T: int := 0x100

  function Holding(w: Word, below: bv8, above: bv8): Mem {
    x =>
      if PC <= x < PC + 4 then WordBytes(w)[x - PC]
      else if T <= x < T + |Expand(w, PC)| then Expand(w, PC)[x - T]
      else if x < PC then below else above
  }

  lemma HoldsBoth(w: Word, below: bv8, above: bv8)
    ensures InPlace(w, Holding(w, below, above), PC, T)
  {
    hide WordBytes, Expand, Decode, Fetch;
    FetchWord(Holding(w, below, above), PC, w);
  }

  lemma BlockSize(w: Word)
    ensures |Expand(w, PC)| <= 24
  {
    hide ExpandAs, Decode;
  }

  // Every general register x, every vector register lo.
  function Filled(x: U64, lo: U64, f: Flags, m: Mem): Core {
    Core(seq(31, _ => x), 0, f, seq(32, _ => Vec(lo, 0)), m)
  }

  const CLEAR := Flags(false, false, false, false)

  function Idle(w: Word, c: Core): Core { c }
  function BumpsSp(w: Word, c: Core): Core { c.(sp := 1) }

  // Flags under which the condition holds.
  function FlagsFor(cond: bv4): (f: Flags)
    ensures ConditionHolds(cond, f)
  {
    var on := cond & 1 == 0;
    if cond >> 1 == 0 then Flags(false, on, false, false)
    else if cond >> 1 == 1 then Flags(false, false, on, false)
    else if cond >> 1 == 2 then Flags(on, false, false, false)
    else if cond >> 1 == 3 then Flags(false, false, false, on)
    else if cond >> 1 == 4 then Flags(false, false, on, false)
    else if cond >> 1 == 5 then Flags(!on, false, false, false)
    else if cond >> 1 == 6 then Flags(!on, false, false, false)
    else CLEAR
  }

  lemma NotFaithful(exec: Exec, w: Word, c: Core)
    requires InPlace(w, c.mem, PC, T)
    requires !SameResult(Decode(w), c, PC, T, Execute(exec, Decode(w), w, State(c, PC)),
                         BlockResult(exec, Decode(w), w, PC, State(c, T)))
    ensures !Faithful(w)
  {
    hide SameOutcome, SameResult, InPlace, Execute, BlockResult, Decode;
    OutcomeIs(exec, w, c, PC, T);
    assert !SameOutcome(exec, w, c, PC, T);
  }

  lemma RegisterDiffers(exec: Exec, w: Word, c: Core, n: nat)
    requires InPlace(w, c.mem, PC, T) && n < 31 && !Transfers(Decode(w), c)
    requires Execute(exec, Decode(w), w, State(c, PC)).core.x[n]
          != BlockResult(exec, Decode(w), w, PC, State(c, T)).core.x[n]
    ensures !Faithful(w)
  {
    hide Decode, Execute, BlockResult, Transfers, Faithful, InPlace;
    NotFaithful(exec, w, c);
  }

  // What both read at the computed address ends in a word of ones: they are far from the block and not at w.
  lemma ReadsAhead(w: Word, imm: bv19, below: bv8)
    ensures var b := LiteralTarget19(imm, PC);
            Read64(Holding(w, below, 1), b) / 0x1_0000_0000 == 0x0101_0101
  {
    hide WordBytes, Expand, Decode;
    BlockSize(w);
    var b, m := LiteralTarget19(imm, PC), Holding(w, below, 1);
    assert b >= PC;
    assert m(b + 4) == 1 && m(b + 5) == 1 && m(b + 6) == 1 && m(b + 7) == 1;
    assert Read32(m, b + 4) == 0x0101_0101;
  }

  // A load of something other than one 64-bit register.
  lemma WrongLoad(w: Word)
    requires Decode(w).LdrLit? && !InDomain(Decode(w)) && !Decode(w).simd && Decode(w).opc != 1
    ensures !Faithful(w)
  {
    hide Decode, Read64, Read32, Wrap, SignExtend19, Faithful, InPlace, Holding, LiteralTarget19, Execute, BlockResult;
    var LdrLit(opc, simd, rt, imm) := Decode(w);
    var c := Filled(0, 0, CLEAR, Holding(w, 1, 1));
    HoldsBoth(w, 1, 1);
    ReadsAhead(w, imm, 1);
    LoadEffects(Idle, opc, rt, imm, w, c);
    RegisterDiffers(Idle, w, c, rt as int);
  }

  // A load into a vector register, or an unallocated encoding.
  lemma VectorLoad(w: Word)
    requires Decode(w).LdrLit? && Decode(w).simd
    ensures !Faithful(w)
  {
    hide Decode, Read64, Read32, Wrap, SignExtend19, Faithful, InPlace, Holding, LiteralTarget19;
    var LdrLit(opc, simd, rt, imm) := Decode(w);
    var m := Holding(w, 1, 1);
    HoldsBoth(w, 1, 1);
    var exec := if opc == 3 then BumpsSp else Idle;
    var loaded := LoadLiteral(opc, true, rt, Wrap(PC + 4 * SignExtend19(imm)), Filled(0, 0, CLEAR, m)).v[rt as int].lo;
    var c := Filled(0, if loaded == 0 then 1 else 0, CLEAR, m);
    VectorEffects(exec, opc, rt, imm, w, c, loaded);
    NotFaithful(exec, w, c);
  }

  // The instruction changes a vector register or SP, the block neither.
  lemma VectorEffects(exec: Exec, opc: bv2, rt: bv5, imm: bv19, w: Word, c: Core, loaded: U64)
    requires opc == 3 ==> exec(w, c).sp != c.sp
    requires opc != 3 ==>
               var v := LoadLiteral(opc, true, rt, Wrap(PC + 4 * SignExtend19(imm)), c).v[rt as int].lo;
               loaded == v != c.v[rt as int].lo
    ensures var i := LdrLit(opc, true, rt, imm);
            !SameResult(i, c, PC, T, Execute(exec, i, w, State(c, PC)), BlockResult(exec, i, w, PC, State(c, T)))
  {
    hide Read64, Read32, Wrap, SignExtend19, LiteralTarget19, LoadLiteral;
    var i := LdrLit(opc, true, rt, imm);
    var r, r' := Execute(exec, i, w, State(c, PC)), BlockResult(exec, i, w, PC, State(c, T));
    if opc != 3 {
      assert r.core.v[rt as int].lo == loaded && r'.core.v[rt as int].lo == c.v[rt as int].lo;
    }
  }

  lemma LoadEffects(exec: Exec, opc: bv2, rt: bv5, imm: bv19, w: Word, c: Core)
    requires rt != 31 && c.x[rt as int] == 0
    ensures var i := LdrLit(opc, false, rt, imm);
            && OwnEffect(opc, Execute(exec, i, w, State(c, PC)).core.x[rt as int], c.mem,
                         Wrap(PC + 4 * SignExtend19(imm)))
            && BlockResult(exec, i, w, PC, State(c, T)).core.x[rt as int] == Read64(c.mem, LiteralTarget19(imm, PC))
  {
    hide Read64, SignExtend19, LiteralTarget19, Wrap, Effect, OwnEffect;
    LoadEffect(exec, opc, rt, imm, w, c);
  }

  // A 64-bit load, or a value no 64-bit load ahead of w yields.
  predicate OwnEffect(opc: bv2, v: U64, m: Mem, a: int) {
    if opc == 1 then v == Read64(m, a) else v < 0x1_0000_0000 || v >= TWO_64 - 0x8000_0000
  }

  lemma LoadEffect(exec: Exec, opc: bv2, rt: bv5, imm: bv19, w: Word, c: Core)
    requires rt != 31 && c.x[rt as int] == 0
    ensures OwnEffect(opc, Effect(exec, LdrLit(opc, false, rt, imm), w, c, PC).x[rt as int], c.mem,
                      Wrap(PC + 4 * SignExtend19(imm)))
  {
    hide Read64, SignExtend19, Read32;
    assert opc == 0 || opc == 1 || opc == 2 || opc == 3;
  }

  lemma BackwardTarget(imm: bv19)
    requires imm as int >= 0x4_0000
    ensures Wrap(PC + 4 * SignExtend19(imm)) == LiteralTarget19(imm, PC) - 0x20_0000
    ensures PC + 0x10_0000 <= LiteralTarget19(imm, PC) < PC + 0x20_0000
  {
    assert SignExtend19(imm) == imm as int - 0x8_0000;
  }

  // A 64-bit load from before the instruction.
  lemma BackwardLoad(w: Word)
    requires Decode(w).LdrLit? && !InDomain(Decode(w)) && !Decode(w).simd && Decode(w).opc == 1
    ensures !Faithful(w)
  {
    hide Decode, Faithful, Read64, SignExtend19, Wrap, Holding, LiteralTarget19, Execute, BlockResult, InPlace;
    var LdrLit(opc, _, rt, imm) := Decode(w);
    var c := Filled(0, 0, CLEAR, Holding(w, 1, 0));
    HoldsBoth(w, 1, 0);
    BackwardTarget(imm);
    ReadsApart(w, LiteralTarget19(imm, PC));
    LoadEffects(Idle, opc, rt, imm, w, c);
    RegisterDiffers(Idle, w, c, rt as int);
  }

  lemma ReadsApart(w: Word, b: int)
    requires PC + 0x10_0000 <= b < PC + 0x20_0000
    ensures Read64(Holding(w, 1, 0), b - 0x20_0000) != Read64(Holding(w, 1, 0), b)
  {
    hide Decode, WordBytes, Expand;
    BlockSize(w);
    var m := Holding(w, 1, 0);
    assert m(b - 0x20_0000) == 1;
    assert Read32(m, b) == 0 && Read32(m, b + 4) == 0;
  }

  lemma GoesElsewhere(exec: Exec, w: Word, c: Core)
    requires InPlace(w, c.mem, PC, T) && Transfers(Decode(w), c)
    requires Execute(exec, Decode(w), w, State(c, PC)).pc != BlockResult(exec, Decode(w), w, PC, State(c, T)).pc
    ensures !Faithful(w)
  {
    hide Decode, Execute, BlockResult, Transfers, Faithful, InPlace;
    NotFaithful(exec, w, c);
  }

  // A branch backwards.
  lemma BranchOutside(w: Word)
    requires Decode(w).CmpBr? || Decode(w).BCond? || Decode(w).Branch? || Decode(w).BranchLink?
    requires !InDomain(Decode(w))
    ensures !Faithful(w)
  {
    hide Decode, Fetch, ConditionHolds, InPlace, Holding, Faithful, Execute, BlockResult;
    var i := Decode(w);
    var f := if i.BCond? then FlagsFor(i.cond) else CLEAR;
    var v := if i.CmpBr? && i.nonzero then 1 else 0;
    var c := Filled(v, 0, f, Holding(w, 0, 0));
    HoldsBoth(w, 0, 0);
    BackwardDiffers(Idle, i, w, c);
    GoesElsewhere(Idle, w, c);
  }

  lemma BackwardDiffers(exec: Exec, i: Inst, w: Word, c: Core)
    requires i.CmpBr? || i.BCond? || i.Branch? || i.BranchLink?
    requires !InDomain(i) && Transfers(i, c)
    ensures Execute(exec, i, w, State(c, PC)).pc != BlockResult(exec, i, w, PC, State(c, T)).pc
  {
    hide ConditionHolds;
  }

  // A backward displacement goes too far by the weight the sign bit has when it is taken for a digit.
  lemma BackwardOff(i: Inst, c: Core, pc: int)
    requires i.CmpBr? || i.BCond? ==> i.imm as int >= 0x4_0000
    requires i.Branch? || i.BranchLink? ==> i.disp as int >= 0x200_0000
    ensures i.CmpBr? || i.BCond? ==> LiteralTarget19(i.imm, pc) == Wrap(Destination(i, c, pc) + 0x20_0000)
    ensures i.Branch? || i.BranchLink? ==> LiteralTarget26(i.disp, pc) == Wrap(Destination(i, c, pc) + 0x1000_0000)
  {
    hide Wrap, X, LiteralTarget19, LiteralTarget26, SignExtend19, SignExtend26;
    match i {
      case CmpBr(_, _, _, imm) => Backward19(imm, pc);
      case BCond(_, imm) => Backward19(imm, pc);
      case Branch(disp) => Backward26(disp, pc);
      case BranchLink(disp) => Backward26(disp, pc);
      case _ =>
    }
  }

  lemma Backward19(imm: bv19, pc: int)
    requires imm as int >= 0x4_0000
    ensures LiteralTarget19(imm, pc) == Wrap(Wrap(pc + 4 * SignExtend19(imm)) + 0x20_0000)
  {
    hide Wrap;
    WrapAdds(pc + 4 * SignExtend19(imm), 0x20_0000);
  }

  lemma Backward26(disp: bv26, pc: int)
    requires disp as int >= 0x200_0000
    ensures LiteralTarget26(disp, pc) == Wrap(Wrap(pc + 4 * SignExtend26(disp)) + 0x1000_0000)
  {
    hide Wrap;
    WrapAdds(pc + 4 * SignExtend26(disp), 0x1000_0000);
  }

  lemma WrapAdds(n: int, k: int)
    ensures Wrap(Wrap(n) + k) == Wrap(n + k)
  {
    var q, r := n / TWO_64, n % TWO_64;
    assert n + k == (r + k) + q * TWO_64;
  }

  lemma {:induction false} Pow2Adds(a: nat, b: nat)
    ensures Pow2(a + b) == Pow2(a) * Pow2(b)
    decreases a
  {
    if a > 0 {
      Pow2Adds(a - 1, b);
      assert Pow2(a + b) == 2 * Pow2((a - 1) + b);
    }
  }

  lemma Pow2Of64()
    ensures Pow2(64) == TWO_64
  {
    assert Pow2(8) == 256;
    Pow2Adds(8, 8);
    Pow2Adds(16, 16);
    Pow2Adds(32, 32);
  }

  lemma {:induction false} Pow2Grows(k: nat, n: nat)
    requires k < n
    ensures Pow2(k) < Pow2(n)
    decreases n
  {
    if k < n - 1 {
      Pow2Grows(k, n - 1);
    }
  }

  // Copied verbatim although PC-relative: wrong wherever it is moved.
  lemma AdrEffects(exec: Exec, page: bool, rd: bv5, rel: bv21, w: Word, c: Core, pc: int)
    requires rd != 31
    ensures var i := Adr(page, rd, rel);
            Execute(exec, i, w, State(c, pc)).core.x[rd as int]
            == if page then Wrap(pc - pc % 4096 + 4096 * SignExtend21(rel)) else Wrap(pc + SignExtend21(rel))
  {
    hide SignExtend21, Wrap;
  }

  lemma AdrOutside(w: Word)
    requires Decode(w).Adr? && !InDomain(Decode(w))
    ensures !Faithful(w)
  {
    hide Decode, Faithful, Execute, SignExtend21, InPlace, Holding;
    var Adr(page, rd, rel) := Decode(w);
    var c := Filled(0, 0, CLEAR, Holding(w, 0, 0));
    HoldsBoth(w, 0, 0);
    AdrEffects(Idle, page, rd, rel, w, c, PC);
    AdrEffects(Idle, page, rd, rel, w, c, T);
    RegisterDiffers(Idle, w, c, rd as int);
  }

  lemma TestBranchOutside(w: Word)
    requires Decode(w).TestBr? && !InDomain(Decode(w))
    ensures !Faithful(w)
  {
    hide Decode, Fetch, Pow2, Faithful, InPlace, Holding;
    var bit := Decode(w).bit as int;
    Pow2Of64();
    Pow2Grows(bit, 64);
    var p := Pow2(bit);
    var v := if Decode(w).nonzero then p else 0;
    assert p / p == 1 && 0 / p == 0;
    assert BitSet(v, Decode(w).bit) == Decode(w).nonzero;
    HoldsBoth(w, 0, 0);
    GoesElsewhere(Idle, w, Filled(v, 0, CLEAR, Holding(w, 0, 0)));
  }

  /**
   * relocate_write is right for a word, from whatever state and wherever the word and its block lie in memory, exactly
   * on the domain.
   */
  lemma DomainIsExact(w: Word)
    ensures Faithful(w) <==> InDomain(Decode(w))
  {
    hide Decode, SameOutcome, InPlace;
    if InDomain(Decode(w)) {
      forall exec: Exec, c: Core, pc: int, t: int | InPlace(w, c.mem, pc, t) ensures SameOutcome(exec, w, c, pc, t) {
        DomainIsFaithful(exec, w, c, pc, t);
      }
    } else if Decode(w).LdrLit? {
      if Decode(w).simd {
        VectorLoad(w);
      } else if Decode(w).opc != 1 {
        WrongLoad(w);
      } else {
        BackwardLoad(w);
      }
    } else if Decode(w).TestBr? {
      TestBranchOutside(w);
    } else if Decode(w).Adr? {
      AdrOutside(w);
    } else {
      BranchOutside(w);
    }
  }
}
