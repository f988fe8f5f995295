/**
 * The relocated window behaves like the original one: running the trampoline simulates running
 * the instructions it was made from, wherever it is placed.
 */
module A64Simulation {
  import opened A64Encoding
  import opened Numbers
  import opened Wrappers
  import opened A64Machine
  import opened A64Relocation

  // ----- the domain -----

  // Words whose rewrite (or verbatim copy) means the same at any placement.
  predicate InDomain(i: Inst) {
    match i
    case LdrLit(opc, simd, rt, imm) => !simd && (rt == 31 || (opc == 1 && imm as int < 0x4_0000))
    case CmpBr(_, nonzero, rt, imm) => imm as int < 0x4_0000 || (rt == 31 && nonzero)
    case BCond(_, imm) => imm as int < 0x4_0000
    case Branch(disp) => disp as int < 0x200_0000
    case BranchLink(disp) => disp as int < 0x200_0000
    case TestBr(nonzero, _, rt, _) => rt == 31 && nonzero
    case Adr(_, rd, _) => rd == 31
    case _ => true
  }

  // ----- what two runs may differ in -----

  // The memory and the registers in which they may differ. The first holds the patched window, the trampoline and
  // memory that is dead, like what a handler left below SP; it may be written.
  datatype View = View(hidden: iset<int>, loose: set<int>)

  function Loosen(v: View, regs: set<int>): View {
    v.(loose := v.loose + regs)
  }

  ghost predicate SameMemory(m: Mem, m': Mem, hidden: iset<int>) {
    forall a :: a !in hidden ==> m(a) == m'(a)
  }

  ghost predicate KeepsCode(m: Mem, m': Mem, code: iset<int>) {
    forall a :: a in code ==> m(a) == m'(a)
  }

  ghost predicate Agree(c: Core, c': Core, v: View) {
    && (forall n :: 0 <= n < 31 && n !in v.loose ==> c.x[n] == c'.x[n])
    && c.sp == c'.sp && c.flags == c'.flags && c.v == c'.v && SameMemory(c.mem, c'.mem, v.hidden)
  }

  // From agreement in view v the abstract step leads to agreement in view v'. It writes no code.
  ghost predicate Confined(exec: Exec, w: Word, c: Core, code: iset<int>, v: View, v': View) {
    forall c': Core :: Agree(c, c', v) ==>
      Agree(exec(w, c), exec(w, c'), v') && KeepsCode(c'.mem, exec(w, c').mem, code)
  }

  // An instruction the model opens reads no loose register.
  predicate ReadsTight(i: Inst, loose: set<int>) {
    match i
    case CmpBr(_, _, rt, _) => rt as int !in loose
    case TestBr(_, _, rt, _) => rt as int !in loose
    case LdrImm(_, rn, _) => rn as int !in loose
    case Br(rn) => rn as int !in loose
    case Blr(rn) => rn as int !in loose
    case _ => true
  }

  // The register it loads is no longer loose.
  function Refreshed(i: Inst): set<int> {
    match i
    case LdrLit(_, _, rt, _) => {rt as int}
    case LdrImm(rt, _, _) => {rt as int}
    case _ => {}
  }

  ghost predicate Follows(i: Inst, v: View, v': View) {
    v.hidden <= v'.hidden && v.loose <= v'.loose + Refreshed(i)
  }

  ghost predicate Disjoint8(a: int, hidden: iset<int>) {
    forall b :: a <= b < a + 8 ==> b !in hidden
  }

  // The instruction at s.pc in window [lo, hi) is one the rewrite is right for, jumps out of the window if it jumps,
  // loads no hidden datum and reads no loose register; v is the view before it, v' the one behind it.
  ghost predicate SafeInst(exec: Exec, i: Inst, w: Word, s: State, lo: int, hi: int, code: iset<int>, v: View,
                           v': View) {
    && InDomain(i) && ReadsTight(i, v.loose)
    && (Transfers(i, s.core) ==> !(lo <= Destination(i, s.core, s.pc) < hi))
    && (if i.Other? then Confined(exec, w, s.core, code, v, v') else Follows(i, v, v'))
    && match i {
         case LdrLit(_, _, rt, imm) => rt != 31 ==> Disjoint8(Wrap(s.pc + 4 * SignExtend19(imm)), v.hidden)
         case LdrImm(rt, rn, off) => rt != 31 ==> Disjoint8(Wrap(Base(s.core, rn) + 8 * (off as int)), v.hidden)
         case _ => true
       }
  }

  ghost predicate SafeAt(exec: Exec, s: State, lo: int, hi: int, code: iset<int>, v: View, v': View) {
    var w := Fetch(s.core.mem, s.pc);
    SafeInst(exec, Decode(w), w, s, lo, hi, code, v, v')
  }

  // The original run leaves the window with its j-th step; `views` are those before and behind each step.
  ghost predicate SafeRun(exec: Exec, s: State, j: nat, lo: int, hi: int, code: iset<int>, views: seq<View>)
    decreases j
  {
    && |views| == j + 1
    && if j == 0 then !(lo <= s.pc < hi)
       else
         && lo <= s.pc < hi && SafeAt(exec, s, lo, hi, code, views[0], views[1])
         && SafeRun(exec, Step(exec, s), j - 1, lo, hi, code, views[1..])
  }

  // ----- what an exit must satisfy -----

  // Addresses of the trampoline's instructions; its literals are not among them.
  ghost function InstructionAddresses(ws: seq<Word>, t: int): iset<int> {
    iset a: int | IsInstructionAddress(ws, t, a)
  }

  ghost predicate IsInstructionAddress(ws: seq<Word>, t: int, a: int) {
    || a == BlockStart(ws, t, |ws|)
    || a == BlockStart(ws, t, |ws|) + 4
    || exists i: nat :: i < |ws| && a - BlockStart(ws, t, i) in CodeOffsets(Decode(ws[i]))
  }

  // Same destination; same state in the view, except for X17.
  ghost predicate SameExit(r: State, r': State, v: View) {
    r'.pc == r.pc && Agree(r.core, r'.core, Loosen(v, {17}))
  }

  // The same, except for a return address that stands for the original one.
  ghost predicate SameCall(ws: seq<Word>, base: int, t: int, r: State, r': State, v: View) {
    && r'.pc == r.pc && Agree(r.core, r'.core, Loosen(v, {17, 30}))
    && exists i: nat :: i < |ws| && r.core.x[30] == base + 4 * (i + 1) && StandsFor(ws, t, i, r'.core.x[30])
  }

  // The return address a call in the block of word `i` passes on.
  predicate StandsFor(ws: seq<Word>, t: int, i: nat, lr: int)
    requires i < |ws|
  {
    if Decode(ws[i]).BranchLink? then lr == BlockStart(ws, t, i) + 8 else lr == BlockStart(ws, t, i + 1)
  }

  // Where the inline literal of an expansion begins.
  function LiteralOffset(i: Inst): Option<nat> {
    match i
    case LdrLit(_, _, _, _) => Some(8)
    case CmpBr(_, _, _, _) => Some(16)
    case BCond(_, _) => Some(16)
    case Branch(_) => Some(8)
    case BranchLink(_) => Some(12)
    case _ => None
  }

  /** No instruction address is in a literal, neither in that of an expansion nor in that of the jump behind them. */
  lemma LiteralsApart(ws: seq<Word>, t: int, i: nat, a: int)
    requires i <= |ws| && a in InstructionAddresses(ws, t)
    ensures i < |ws| && LiteralOffset(Decode(ws[i])).Some? ==>
              !(0 <= a - BlockStart(ws, t, i) - LiteralOffset(Decode(ws[i])).value < 8)
    ensures !(0 <= a - BlockStart(ws, t, |ws|) - 8 < 8)
  {
    hide Decode, CodeOffsets, LiteralOffset, Length, BlockStart;
    if i < |ws| {
      BlockStartNext(ws, t, i);
      CodeNotLiteral(Decode(ws[i]));
      BlocksInOrder(ws, t, i + 1, |ws|);
    }
    if j: nat :| j < |ws| && a - BlockStart(ws, t, j) in CodeOffsets(Decode(ws[j])) {
      BlockStartNext(ws, t, j);
      CodeNotLiteral(Decode(ws[j]));
      BlocksInOrder(ws, t, j + 1, |ws|);
      if j < i {
        BlocksInOrder(ws, t, j + 1, i);
      } else if i < j {
        BlocksInOrder(ws, t, i + 1, j);
      }
    }
  }

  lemma CodeNotLiteral(i: Inst)
    ensures forall o :: o in CodeOffsets(i) ==> 0 <= o < 4 * Length(i)
    ensures LiteralOffset(i).Some? ==>
              && LiteralOffset(i).value + 8 <= 4 * Length(i)
              && forall o :: o in CodeOffsets(i) ==> !(0 <= o - LiteralOffset(i).value < 8)
  {
  }

  lemma {:induction false} BlocksInOrder(ws: seq<Word>, t: int, i: nat, j: nat)
    requires i <= j <= |ws|
    ensures BlockStart(ws, t, i) <= BlockStart(ws, t, j)
    decreases j - i
  {
    hide Decode, BlockStart;
    if i < j {
      BlockStartNext(ws, t, i);
      BlocksInOrder(ws, t, i + 1, j);
    }
  }

  // ----- setting -----

  ghost predicate Range(lo: int, n: int, code: iset<int>) {
    forall a :: lo <= a < lo + n ==> a in code
  }

  ghost predicate WordsAt(m: Mem, base: int, ws: seq<Word>) {
    forall i :: 0 <= i < |ws| ==> Fetch(m, base + 4 * i) == ws[i]
  }

  ghost predicate Placement(ws: seq<Word>, base: int, t: int, code: iset<int>) {
    && 0 <= base && base + 4 * |ws| < TWO_64
    && 0 <= t && t + 4 * OutIndex(ws) + 0x40 < TWO_64
    && Range(base, 4 * |ws|, code) && Range(t, 4 * OutIndex(ws) + 16, code)
  }

  // The original runs in m; m' holds the trampoline.
  ghost predicate Loaded(ws: seq<Word>, base: int, t: int, m: Mem, m': Mem)
    requires 0 <= base && base + 4 * |ws| < TWO_64
  {
    WordsAt(m, base, ws) && BytesAt(m', t, Trampoline(ws, base))
  }

  // ----- code survives -----

  lemma LoadedSurvives(ws: seq<Word>, base: int, t: int, code: iset<int>, m: Mem, m': Mem, n: Mem, n': Mem)
    requires Placement(ws, base, t, code) && Loaded(ws, base, t, m, m')
    requires KeepsCode(m, n, code) && KeepsCode(m', n', code)
    ensures Loaded(ws, base, t, n, n')
  {
    hide ExpandAll, Redirect, Decode;
    WordsSurvive(m, n, base, ws, code);
  }

  // ----- one instruction -----

  lemma AgreesWithItself(c: Core, v: View)
    ensures Agree(c, c, v)
  {
  }

  // Whether a jump is taken does not depend on what may differ.
  lemma SameDecision(i: Inst, c: Core, c': Core, v: View)
    requires Agree(c, c', v) && ReadsTight(i, v.loose)
    ensures Transfers(i, c) == Transfers(i, c') && (i.Branch? || i.BranchLink? || i.Br? || i.Blr? ==> Transfers(i, c))
    ensures i.Br? || i.Blr? ==> forall pc: int, pc': int :: Destination(i, c, pc) == Destination(i, c', pc')
  {
    hide ConditionHolds, BitSet, SameMemory;
  }

  lemma AgreesWider(c: Core, c': Core, v: View, v': View)
    requires Agree(c, c', v) && v.hidden <= v'.hidden && v.loose <= v'.loose
    ensures Agree(c, c', v')
  {
  }

  // Loading a register from memory that agrees.
  lemma LoadAgrees(c: Core, c': Core, v: View, v': View, rt: bv5, value: U64)
    requires Agree(c, c', v) && v.hidden <= v'.hidden && v.loose <= v'.loose + {rt as int}
    ensures rt != 31 ==> Agree(SetX(c, rt, value), SetX(c', rt, value), v')
    ensures rt == 31 ==> Agree(c, c', v')
  {
  }

  // A jump sets X17; a call sets X30 besides.
  lemma JumpAgrees(c: Core, c': Core, v: View, target: U64)
    requires Agree(c, c', v)
    ensures Agree(c, c', Loosen(v, {17})) && Agree(c, SetX(c', 17, target), Loosen(v, {17}))
  {
  }

  lemma CallAgrees(c: Core, c': Core, v: View, lr: U64, lr': U64)
    requires Agree(c, c', v)
    ensures Agree(SetX(c, 30, lr), SetX(c', 30, lr'), Loosen(v, {30}))
  {
  }

  // When the original goes on to the next instruction, so does the trampoline.
  lemma FallsThrough(exec: Exec, i: Inst, w: Word, s: State, s': State, lo: int, hi: int, code: iset<int>, v: View,
                     v': View)
    requires Agree(s.core, s'.core, v) && !Transfers(i, s.core)
    requires SafeInst(exec, i, w, s, lo, hi, code, v, v')
    ensures FallsAlike(i, s, s', Execute(exec, i, w, s), BlockResult(exec, i, w, s.pc, s'), code, v')
  {
    hide Decode, Wrap, BitSet, ConditionHolds, Fetch, Read64, Transfers, Destination, Agree;
    SameDecision(i, s.core, s'.core, v);
    match i {
      case LdrLit(_, _, _, _) => LiteralFalls(exec, i, w, s, s', lo, hi, code, v, v');
      case LdrImm(_, _, _) => ImmediateFalls(exec, i, w, s, s', lo, hi, code, v, v');
      case Other => AgreesWithItself(s.core, v);
      case _ => AgreesWider(s.core, s'.core, v, v');
    }
  }

  lemma ImmediateFalls(exec: Exec, i: Inst, w: Word, s: State, s': State, lo: int, hi: int, code: iset<int>, v: View,
                       v': View)
    requires i.LdrImm? && Agree(s.core, s'.core, v) && SafeInst(exec, i, w, s, lo, hi, code, v, v')
    ensures FallsAlike(i, s, s', Execute(exec, i, w, s), BlockResult(exec, i, w, s.pc, s'), code, v')
  {
    hide Decode, Wrap, Fetch, Read64;
    var LdrImm(rt, rn, off) := i;
    var ea := Wrap(Base(s.core, rn) + 8 * (off as int));
    if rt != 31 {
      SameRead(s.core.mem, s'.core.mem, ea, v.hidden);
    }
    hide Agree;
    LoadAgrees(s.core, s'.core, v, v', rt, Read64(s.core.mem, ea));
  }

  // The next instruction and the next block, in agreement.
  ghost predicate FallsAlike(i: Inst, s: State, s': State, r: State, r': State, code: iset<int>, v: View) {
    && r.pc == s.pc + 4 && r'.pc == s'.pc + 4 * Length(i)
    && Agree(r.core, r'.core, v)
    && KeepsCode(s.core.mem, r.core.mem, code) && KeepsCode(s'.core.mem, r'.core.mem, code)
  }

  lemma LiteralFalls(exec: Exec, i: Inst, w: Word, s: State, s': State, lo: int, hi: int, code: iset<int>, v: View,
                     v': View)
    requires i.LdrLit? && Agree(s.core, s'.core, v) && SafeInst(exec, i, w, s, lo, hi, code, v, v')
    ensures FallsAlike(i, s, s', Execute(exec, i, w, s), BlockResult(exec, i, w, s.pc, s'), code, v')
  {
    hide Decode, Wrap, Fetch, Read64;
    var LdrLit(opc, simd, rt, imm) := i;
    assert LiteralTarget19(imm, s.pc) == Wrap(s.pc + 4 * (imm as int));
    var ea := Wrap(s.pc + 4 * SignExtend19(imm));
    if rt != 31 {
      SameRead(s.core.mem, s'.core.mem, ea, v.hidden);
    }
    hide Agree;
    LoadAgrees(s.core, s'.core, v, v', rt, Read64(s.core.mem, ea));
  }

  lemma SameRead(m: Mem, m': Mem, a: int, hidden: iset<int>)
    requires SameMemory(m, m', hidden) && Disjoint8(a, hidden)
    ensures Read64(m, a) == Read64(m', a)
  {
    hide Combine32;
    assert forall b :: a <= b < a + 8 ==> m(b) == m'(b);
  }

  // When the original leaves the window, the trampoline leaves for the same place.
  lemma LeavesAlike(exec: Exec, i: Inst, w: Word, s: State, s': State, lo: int, hi: int, code: iset<int>, v: View,
                   v': View)
    requires 0 <= s.pc < TWO_64 - 4 && 0 <= s'.pc < TWO_64 - 0x20
    requires Agree(s.core, s'.core, v) && Transfers(i, s.core)
    requires SafeInst(exec, i, w, s, lo, hi, code, v, v')
    ensures var r, r' := Execute(exec, i, w, s), BlockResult(exec, i, w, s.pc, s');
            if i.BranchLink? || i.Blr? then
              && r'.pc == r.pc && Agree(r.core, r'.core, Loosen(v', {17, 30}))
              && r.core.x[30] == s.pc + 4
              && r'.core.x[30] == if i.BranchLink? then s'.pc + 8 else s'.pc + 4
            else SameExit(r, r', v')
  {
    hide Decode, ConditionHolds, BitSet, Fetch, Read64, Wrap, Agree, Transfers;
    SameDecision(i, s.core, s'.core, v);
    TargetsAre(i, s.core, s.pc);
    AgreesWider(s.core, s'.core, v, v');
    match i {
      case CmpBr(_, _, _, imm) =>
        JumpAgrees(s.core, s'.core, v', LiteralTarget19(imm, s.pc));
      case BCond(_, imm) =>
        JumpAgrees(s.core, s'.core, v', LiteralTarget19(imm, s.pc));
      case Branch(disp) =>
        JumpAgrees(s.core, s'.core, v', LiteralTarget26(disp, s.pc));
      case BranchLink(disp) =>
        var target := LiteralTarget26(disp, s.pc);
        JumpAgrees(s.core, s'.core, v', target);
        CallAgrees(s.core, SetX(s'.core, 17, target), Loosen(v', {17}), s.pc + 4, s'.pc + 8);
        assert Loosen(Loosen(v', {17}), {30}) == Loosen(v', {17, 30});
      case Br(_) =>
        JumpAgrees(s.core, s'.core, v', 0);
      case Blr(_) =>
        JumpAgrees(s.core, s'.core, v', 0);
        CallAgrees(s.core, s'.core, Loosen(v', {17}), s.pc + 4, s'.pc + 4);
        assert Loosen(Loosen(v', {17}), {30}) == Loosen(v', {17, 30});
    }
  }

  // The jumps of the domain; where an expansion jumps, its literal is the destination.
  lemma TargetsAre(i: Inst, c: Core, pc: int)
    requires InDomain(i) && Transfers(i, c)
    ensures i.CmpBr? || i.BCond? || i.Branch? || i.BranchLink? || i.Br? || i.Blr?
    ensures i.CmpBr? || i.BCond? ==> LiteralTarget19(i.imm, pc) == Destination(i, c, pc)
    ensures i.Branch? || i.BranchLink? ==> LiteralTarget26(i.disp, pc) == Destination(i, c, pc)
  {
    hide ConditionHolds, BitSet, Wrap;
    if i.TestBr? {
      ZeroHasNoBit(i.bit);
    }
  }

  lemma ZeroHasNoBit(bit: bv6)
    ensures !BitSet(0, bit)
  {
    var p := Pow2(bit as int);
    assert 0 / p == 0;
  }

  // ----- the whole window -----

  ghost predicate Exits(exec: Exec, ws: seq<Word>, base: int, t: int, r: State, s': State, k: nat, v: View) {
    && FetchesFrom(exec, s', k, InstructionAddresses(ws, t))
    && (SameExit(r, Run(exec, s', k), v) || SameCall(ws, base, t, r, Run(exec, s', k), v))
  }

  // The block of word `i` is loaded, in range, and its instructions are among the trampoline's.
  lemma BlockLoaded(ws: seq<Word>, base: int, t: int, code: iset<int>, m: Mem, m': Mem, i: nat)
    requires Placement(ws, base, t, code) && Loaded(ws, base, t, m, m') && i < |ws|
    ensures BytesAt(m', BlockStart(ws, t, i), Expand(ws[i], base + 4 * i))
    ensures t <= BlockStart(ws, t, i) < TWO_64 - 0x40
    ensures BlockStart(ws, t, i + 1) == BlockStart(ws, t, i) + 4 * Length(Decode(ws[i]))
    ensures forall o :: o in CodeOffsets(Decode(ws[i])) ==> BlockStart(ws, t, i) + o in InstructionAddresses(ws, t)
  {
    hide Decode, Expand, ExpandAll, Redirect;
    BytesAtSplit(m', t, ExpandAll(ws, base), Redirect(base + 4 * |ws|));
    BlockAt(m', ws, base, t, i);
    BlockBefore(ws, t, i);
    BlockStartNext(ws, t, i);
    assert ws[..|ws|] == ws;
    forall o | o in CodeOffsets(Decode(ws[i])) ensures IsInstructionAddress(ws, t, BlockStart(ws, t, i) + o) {
      assert BlockStart(ws, t, i) + o - BlockStart(ws, t, i) == o;
    }
  }

  // The jump back behind the window.
  lemma JumpsBack(exec: Exec, ws: seq<Word>, base: int, t: int, code: iset<int>, v: View, s: State, s': State)
    requires Placement(ws, base, t, code) && Loaded(ws, base, t, s.core.mem, s'.core.mem)
    requires s.pc == base + 4 * |ws| && s'.pc == BlockStart(ws, t, |ws|) && Agree(s.core, s'.core, v)
    ensures Exits(exec, ws, base, t, s, s', 2, v)
  {
    hide ExpandAll, Redirect, Decode, Step;
    assert ws[..|ws|] == ws;
    BytesAtSplit(s'.core.mem, t, ExpandAll(ws, base), Redirect(base + 4 * |ws|));
    RunRedirect(exec, s', base + 4 * |ws|, InstructionAddresses(ws, t));
  }

  lemma RunsBlock(exec: Exec, ws: seq<Word>, base: int, t: int, code: iset<int>, i: nat, s: State, s': State)
    requires Placement(ws, base, t, code) && Loaded(ws, base, t, s.core.mem, s'.core.mem) && i < |ws|
    requires s.pc == base + 4 * i && s'.pc == BlockStart(ws, t, i)
    ensures var k := BlockSteps(Decode(ws[i]), s'.core);
            && Run(exec, s', k) == BlockResult(exec, Decode(ws[i]), ws[i], s.pc, s')
            && FetchesFrom(exec, s', k, InstructionAddresses(ws, t))
    ensures Step(exec, s) == Execute(exec, Decode(ws[i]), ws[i], s) && Fetch(s.core.mem, s.pc) == ws[i]
  {
    hide Decode, Execute, ExpandAll, Redirect, BlockResult, BlockSteps, CodeOffsets, Expand, Fetch,
      InstructionAddresses;
    BlockLoaded(ws, base, t, code, s.core.mem, s'.core.mem, i);
    BlockRuns(exec, ws[i], s.pc, s', InstructionAddresses(ws, t));
    assert Fetch(s.core.mem, s.pc) == ws[i];
  }

  // A step to the next instruction of the window.
  lemma FallStep(exec: Exec, ws: seq<Word>, base: int, t: int, code: iset<int>, v: View, v': View, i: nat,
                 s: State, s': State)
    requires Placement(ws, base, t, code) && Loaded(ws, base, t, s.core.mem, s'.core.mem) && i < |ws|
    requires s.pc == base + 4 * i && s'.pc == BlockStart(ws, t, i) && Agree(s.core, s'.core, v)
    requires SafeAt(exec, s, base, base + 4 * |ws|, code, v, v') && !Transfers(Decode(ws[i]), s.core)
    ensures var r, r' := Step(exec, s), BlockResult(exec, Decode(ws[i]), ws[i], s.pc, s');
            && r.pc == s.pc + 4 && r'.pc == BlockStart(ws, t, i + 1) && Agree(r.core, r'.core, v')
            && Loaded(ws, base, t, r.core.mem, r'.core.mem)
  {
    hide Decode, Execute, ExpandAll, Redirect, BlockResult, SafeInst, Transfers, Agree, KeepsCode, Expand;
    RunsBlock(exec, ws, base, t, code, i, s, s');
    var r, r' := Step(exec, s), BlockResult(exec, Decode(ws[i]), ws[i], s.pc, s');
    FallsThrough(exec, Decode(ws[i]), ws[i], s, s', base, base + 4 * |ws|, code, v, v');
    BlockLoaded(ws, base, t, code, s.core.mem, s'.core.mem, i);
    LoadedSurvives(ws, base, t, code, s.core.mem, s'.core.mem, r.core.mem, r'.core.mem);
  }

  // The last step of a run, when it is a jump or a call.
  lemma ExitStep(exec: Exec, ws: seq<Word>, base: int, t: int, code: iset<int>, v: View, v': View, i: nat,
                 s: State, s': State)
    requires Placement(ws, base, t, code) && Loaded(ws, base, t, s.core.mem, s'.core.mem) && i < |ws|
    requires s.pc == base + 4 * i && s'.pc == BlockStart(ws, t, i) && Agree(s.core, s'.core, v)
    requires SafeAt(exec, s, base, base + 4 * |ws|, code, v, v') && Transfers(Decode(ws[i]), s.core)
    ensures var r, r' := Step(exec, s), BlockResult(exec, Decode(ws[i]), ws[i], s.pc, s');
            && (SameExit(r, r', v') || SameCall(ws, base, t, r, r', v'))
            && !(base <= r.pc < base + 4 * |ws|)
  {
    hide Decode, Expand, ExpandAll, Redirect, BlockResult, CodeOffsets, Agree, ConditionHolds, BitSet;
    BlockLoaded(ws, base, t, code, s.core.mem, s'.core.mem, i);
    LeavesAlike(exec, Decode(ws[i]), ws[i], s, s', base, base + 4 * |ws|, code, v, v');
    var inst, r' := Decode(ws[i]), BlockResult(exec, Decode(ws[i]), ws[i], s.pc, s');
    if inst.BranchLink? || inst.Blr? {
      assert StandsFor(ws, t, i, r'.core.x[30]);
    }
  }

  /**
   * From any instruction of the window, for any run that stays in the domain until it leaves the window,
   * the trampoline fetches only instructions (never an inline literal) and leaves for the same place in the
   * same state; after a call, with a return address that stands for the original one. The two may differ in memory
   * and registers, as the views say, as long as no instruction reads these.
   */
  lemma {:induction false} RelocationSimulates(exec: Exec, ws: seq<Word>, base: int, t: int, code: iset<int>,
                                               views: seq<View>, i: nat, s: State, s': State, j: nat)
    requires Placement(ws, base, t, code) && Loaded(ws, base, t, s.core.mem, s'.core.mem) && i <= |ws|
    requires SafeRun(exec, s, j, base, base + 4 * |ws|, code, views)
    requires s.pc == base + 4 * i && s'.pc == BlockStart(ws, t, i) && Agree(s.core, s'.core, views[0])
    ensures exists k: nat :: Exits(exec, ws, base, t, Run(exec, s, j), s', k, views[j])
    decreases j
  {
    hide Decode, Step, ExpandAll, Redirect, BlockResult, BlockSteps, SafeInst, Agree, SameExit, SameCall, Loaded,
      Transfers;
    if j == 0 {
      assert i == |ws| && Run(exec, s, 0) == s;
      JumpsBack(exec, ws, base, t, code, views[0], s, s');
    } else {
      var addresses, r := InstructionAddresses(ws, t), Step(exec, s);
      var k, r' := BlockSteps(Decode(ws[i]), s'.core), BlockResult(exec, Decode(ws[i]), ws[i], s.pc, s');
      RunsBlock(exec, ws, base, t, code, i, s, s');
      assert Run(exec, s, j) == Run(exec, r, j - 1);
      if Transfers(Decode(ws[i]), s.core) {
        ExitStep(exec, ws, base, t, code, views[0], views[1], i, s, s');
        assert Run(exec, r, 0) == r;
        assert Exits(exec, ws, base, t, Run(exec, s, j), s', k, views[j]);
      } else {
        FallStep(exec, ws, base, t, code, views[0], views[1], i, s, s');
        RelocationSimulates(exec, ws, base, t, code, views[1..], i + 1, r, r', j - 1);
        var k' :| Exits(exec, ws, base, t, Run(exec, r, j - 1), r', k', views[j]);
        RunAdds(exec, s', k, k', addresses);
        assert Exits(exec, ws, base, t, Run(exec, s, j), s', k + k', views[j]);
      }
    }
  }

  /**
   * When the callee of a relocated call returns to the address it was given, execution continues, in an
   * unchanged state, with the block of the next instruction.
   */
  lemma CallReturns(exec: Exec, ws: seq<Word>, base: int, t: int, code: iset<int>, m: Mem, i: nat, q: State)
    requires Placement(ws, base, t, code) && Loaded(ws, base, t, m, q.core.mem) && i < |ws|
    requires StandsFor(ws, t, i, q.pc)
    ensures exists k: nat :: k <= 1 && Run(exec, q, k) == State(q.core, BlockStart(ws, t, i + 1))
                             && FetchesFrom(exec, q, k, InstructionAddresses(ws, t))
  {
    hide Decode, ExpandAll, Redirect, Step, WordBytes, LdrRegImmWord, BlrRegWord, BImmWord, AddressBytes;
    BlockLoaded(ws, base, t, code, m, q.core.mem, i);
    if Decode(ws[i]).BranchLink? {
      var b := BlockStart(ws, t, i);
      var head := WordBytes(LdrRegImmWord(17, 0xc)) + WordBytes(BlrRegWord(17));
      var lit := AddressBytes(LiteralTarget26(Decode(ws[i]).disp, base + 4 * i));
      BytesAtSplit(q.core.mem, b, head + WordBytes(BImmWord(0xc)), lit);
      BytesAtSplit(q.core.mem, b, head, WordBytes(BImmWord(0xc)));
      StepHops(exec, q, 0xc);
      assert 8 in CodeOffsets(Decode(ws[i]));
      assert Run(exec, q, 1) == Run(exec, Step(exec, q), 0);
      assert FetchesFrom(exec, Step(exec, q), 0, InstructionAddresses(ws, t));
    } else {
      assert Run(exec, q, 0) == q && FetchesFrom(exec, q, 0, InstructionAddresses(ws, t));
    }
  }

  /**
   * Behind a call. Its callee has returned, to the original and to the address that stands for it; the two differ in
   * X17, in X30, in the dead memory where the callee saved X30, or in whatever else the first view says. From there on
   * the trampoline again does what the original does.
   */
  lemma CallResumes(exec: Exec, ws: seq<Word>, base: int, t: int, code: iset<int>, views: seq<View>, i: nat, q: State,
                    q': State, j: nat)
    requires Placement(ws, base, t, code) && Loaded(ws, base, t, q.core.mem, q'.core.mem) && i < |ws|
    requires q.pc == base + 4 * (i + 1) && StandsFor(ws, t, i, q'.pc)
    requires SafeRun(exec, q, j, base, base + 4 * |ws|, code, views) && Agree(q.core, q'.core, views[0])
    ensures exists k: nat :: Exits(exec, ws, base, t, Run(exec, q, j), q', k, views[j])
  {
    hide Decode, Step, ExpandAll, Redirect, Agree, SameExit, SameCall, Loaded, SafeAt;
    CallReturns(exec, ws, base, t, code, q.core.mem, i, q');
    var k: nat :| k <= 1 && Run(exec, q', k) == State(q'.core, BlockStart(ws, t, i + 1))
                  && FetchesFrom(exec, q', k, InstructionAddresses(ws, t));
    var s', r := State(q'.core, BlockStart(ws, t, i + 1)), Run(exec, q, j);
    RelocationSimulates(exec, ws, base, t, code, views, i + 1, q, s', j);
    var n: nat :| Exits(exec, ws, base, t, r, s', n, views[j]);
    RunAdds(exec, q', k, n, InstructionAddresses(ws, t));
    assert Exits(exec, ws, base, t, r, q', k + n, views[j]);
  }

  // ----- windows that push -----

  function Stored(m: Mem, a: int, b: seq<bv8>): Mem {
    x => if 0 <= x - a < |b| then b[x - a] else m(x)
  }

  // stp x29, x30, [sp, #-16]!, with which a function that calls others begins.
  function Pushed(c: Core): Core {
    var a := Wrap(c.sp - 16);
    c.(sp := a, mem := Stored(c.mem, a, AddressBytes(c.x[29]) + AddressBytes(c.x[30])))
  }

  // It may write over memory in which the two runs differ; what it has written they agree on.
  lemma PushConfined(exec: Exec, w: Word, c: Core, code: iset<int>, v: View)
    requires forall c': Core :: exec(w, c') == Pushed(c')
    requires 29 !in v.loose && 30 !in v.loose && forall x :: 0 <= x - Wrap(c.sp - 16) < 16 ==> x !in code
    ensures Confined(exec, w, c, code, v, v.(hidden := iset x | x in v.hidden && !(0 <= x - Wrap(c.sp - 16) < 16)))
  {
    hide Wrap, AddressBytes;
  }

  // ----- windows without branches -----

  // Whatever the state, the instruction keeps to the view and writes no code.
  ghost predicate AlwaysConfined(exec: Exec, w: Word, code: iset<int>, v: View) {
    forall c: Core :: Confined(exec, w, c, code, v, v)
  }

  // Instructions that are neither branches nor PC-relative and keep to the view run safely to the end of the window.
  lemma {:induction false} StraightRun(exec: Exec, ws: seq<Word>, lo: int, code: iset<int>, v: View, s: State, i: nat)
    requires i <= |ws| && s.pc == lo + 4 * i && WordsAt(s.core.mem, lo, ws) && Range(lo, 4 * |ws|, code)
    requires forall k :: 0 <= k < |ws| ==> Decode(ws[k]).Other? && AlwaysConfined(exec, ws[k], code, v)
    ensures SafeRun(exec, s, |ws| - i, lo, lo + 4 * |ws|, code, seq(|ws| - i + 1, _ => v))
    decreases |ws| - i
  {
    hide Decode, Agree, KeepsCode;
    var views := seq(|ws| - i + 1, _ => v);
    if i < |ws| {
      var r := Step(exec, s);
      assert Fetch(s.core.mem, lo + 4 * i) == ws[i];
      assert AlwaysConfined(exec, ws[i], code, v) && Confined(exec, ws[i], s.core, code, v, v);
      AgreesWithItself(s.core, v);
      assert r == State(exec(ws[i], s.core), s.pc + 4) && KeepsCode(s.core.mem, r.core.mem, code);
      WordsSurvive(s.core.mem, r.core.mem, lo, ws, code);
      StraightRun(exec, ws, lo, code, v, r, i + 1);
      assert views[1..] == seq(|ws| - (i + 1) + 1, _ => v);
    }
  }

  lemma WordsSurvive(m: Mem, n: Mem, lo: int, ws: seq<Word>, code: iset<int>)
    requires WordsAt(m, lo, ws) && Range(lo, 4 * |ws|, code) && KeepsCode(m, n, code)
    ensures WordsAt(n, lo, ws)
  {
    hide PackWord;
    forall i | 0 <= i < |ws| ensures Fetch(n, lo + 4 * i) == ws[i] {
      var a := lo + 4 * i;
      assert a in code && a + 1 in code && a + 2 in code && a + 3 in code;
      assert Fetch(m, a) == ws[i];
    }
  }
}
