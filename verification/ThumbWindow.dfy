/** A whole window of Thumb instructions: running what became of it simulates running it, wherever it is placed. */
module ThumbWindow {
  import opened Numbers
  import opened Wrappers
  import opened A64Encoding
  import opened ThumbMachine
  import opened ThumbExpansion
  import opened ThumbRelocation
  import opened ThumbReader
  import M = A64Machine

  // What thumb_relocator_write_all emits at `a`: each instruction's expansion where the one before it ends.
  function ExpandAll(insns: seq<Insn>, a: int): seq<bv8> {
    if insns == [] then []
    else
      var b := Expand(insns[0].insn1, insns[0].insn2, insns[0].pc - 4, a);
      b + ExpandAll(insns[1..], a + |b|)
  }

  lemma {:induction false} ExpandMore(insns: seq<Insn>, more: seq<Insn>, a: int)
    ensures ExpandAll(insns + more, a) == ExpandAll(insns, a) + ExpandAll(more, a + |ExpandAll(insns, a)|)
    decreases |insns|
  {
    hide Expand;
    if insns == [] {
      assert insns + more == more;
    } else {
      var b := Expand(insns[0].insn1, insns[0].insn2, insns[0].pc - 4, a);
      assert (insns + more)[1..] == insns[1..] + more;
      ExpandMore(insns[1..], more, a + |b|);
    }
  }

  lemma ExpandOne(i: Insn, a: int)
    ensures ExpandAll([i], a) == Expand(i.insn1, i.insn2, i.pc - 4, a)
  {
    hide Expand;
    assert [i][1..] == [];
  }

  // The instructions lie one after the other from p.
  ghost predicate Consecutive(insns: seq<Insn>, p: int) {
    insns != [] ==>
      && insns[0].pc - 4 == p && insns[0].size == Size(insns[0].insn1)
      && Consecutive(insns[1..], p + insns[0].size)
  }

  // As read, they do.
  lemma {:induction false} ReadsConsecutive(m: Mem, insns: seq<Insn>, a: int, end: int)
    requires Reads(m, insns, a, end)
    ensures Consecutive(insns, a) && forall k :: 0 <= k < |insns| ==> insns[k] == InsnAt(m, insns[k].pc - 4)
    decreases |insns|
  {
    hide InsnAt;
    if insns != [] {
      var front, last := insns[..|insns| - 1], insns[|insns| - 1];
      ReadsConsecutive(m, front, a, last.pc - 4);
      assert front + [last] == insns;
      SizeOf(m, last.pc - 4);
      OneMore(m, front, last, a);
    }
  }

  lemma SizeOf(m: Mem, a: int)
    ensures InsnAt(m, a).size == Size(InsnAt(m, a).insn1)
  {
  }

  lemma {:induction false} OneMore(m: Mem, insns: seq<Insn>, last: Insn, a: int)
    requires Reads(m, insns, a, last.pc - 4) && Consecutive(insns, a) && last.size == Size(last.insn1)
    ensures Consecutive(insns + [last], a)
  {
    Behind(m, insns, a, last.pc - 4);
    Appended(insns, last, a);
  }

  // Where a consecutive sequence ends.
  function EndOf(insns: seq<Insn>, p: int): int {
    if insns == [] then p else EndOf(insns[1..], p + insns[0].size)
  }

  lemma {:induction false} Appended(insns: seq<Insn>, last: Insn, p: int)
    requires Consecutive(insns, p) && last.size == Size(last.insn1) && last.pc - 4 == EndOf(insns, p)
    ensures Consecutive(insns + [last], p)
    decreases |insns|
  {
    if insns != [] {
      assert (insns + [last])[1..] == insns[1..] + [last];
      Appended(insns[1..], last, p + insns[0].size);
    } else {
      assert [last][1..] == [];
    }
  }

  lemma {:induction false} Behind(m: Mem, insns: seq<Insn>, a: int, end: int)
    requires Reads(m, insns, a, end)
    ensures EndOf(insns, a) == end
    decreases |insns|
  {
    hide InsnAt;
    if insns != [] {
      var front, last := insns[..|insns| - 1], insns[|insns| - 1];
      Behind(m, front, a, last.pc - 4);
      assert front + [last] == insns;
      EndMore(front, last, a);
    }
  }

  lemma {:induction false} EndMore(insns: seq<Insn>, last: Insn, p: int)
    ensures EndOf(insns + [last], p) == EndOf(insns, p) + last.size
    decreases |insns|
  {
    if insns == [] {
      assert [last][1..] == [] && insns + [last] == [last];
    } else {
      assert (insns + [last])[1..] == insns[1..] + [last];
      EndMore(insns[1..], last, p + insns[0].size);
    }
  }

  // ----- running a window -----

  ghost predicate Kept(m: Mem, m': Mem, code: iset<int>) {
    forall x :: x in code ==> m(x) == m'(x)
  }

  // The instruction is in memory, within `code`.
  ghost predicate InPlace(m: Mem, i: Insn, code: iset<int>) {
    i == InsnAt(m, i.pc - 4) && forall x :: i.pc - 4 <= x < i.pc - 4 + i.size ==> x in code
  }

  // The window is in memory, and what became of it at a, within `code`.
  ghost predicate Held(insns: seq<Insn>, a: int, code: iset<int>, m: Mem) {
    && (forall k :: 0 <= k < |insns| ==> InPlace(m, insns[k], code))
    && M.BytesAt(m, a, ExpandAll(insns, a))
    && forall x :: a <= x < a + |ExpandAll(insns, a)| ==> x in code
  }

  // The j-th step from s is the first to leave the window, by a branch or behind its end; none writes over the code.
  ghost predicate LeavesAfter(exec: Exec, insns: seq<Insn>, code: iset<int>, s: State, j: nat)
    decreases |insns|
  {
    if insns == [] then j == 0
    else
      var i := insns[0];
      && j > 0 && Step(exec, s).Some? && Kept(s.mem, Step(exec, s).value.mem, code)
      && if Leaves(exec, Decode(i.insn1, i.insn2), i.insn1, i.insn2, s) then j == 1
         else LeavesAfter(exec, insns[1..], code, Step(exec, s).value, j - 1)
  }

  // Whether it is a branch that leaves.
  ghost predicate Branched(exec: Exec, insns: seq<Insn>, s: State)
    decreases |insns|
  {
    insns != [] &&
    var i := insns[0];
    || Leaves(exec, Decode(i.insn1, i.insn2), i.insn1, i.insn2, s)
    || (Step(exec, s).Some? && Branched(exec, insns[1..], Step(exec, s).value))
  }

  ghost predicate AllPreserved(insns: seq<Insn>) {
    forall k :: 0 <= k < |insns| ==> Preserved(insns[k].insn1, insns[k].insn2, insns[k].pc - 4)
  }

  // k steps from a end as j steps from the window did: where it branched to, or else behind what became of it.
  ghost predicate SameEnd(exec: Exec, insns: seq<Insn>, a: int, s: State, j: nat, k: nat) {
    && Run(exec, s, j).Some? && Run(exec, s.(pc := a), k).Some?
    && var e, t := Run(exec, s, j).value, Run(exec, s.(pc := a), k).value;
       t == e.(pc := t.pc) && t.pc == if Branched(exec, insns, s) then e.pc else a + |ExpandAll(insns, a)|
  }

  lemma HeldStill(insns: seq<Insn>, a: int, code: iset<int>, m: Mem, m': Mem)
    requires Held(insns, a, code, m) && Kept(m, m', code)
    ensures Held(insns, a, code, m')
  {
    hide ExpandAll, HalfAt, IsThumb2;
    forall k | 0 <= k < |insns| ensures InPlace(m', insns[k], code) {
      var p := insns[k].pc - 4;
      assert InPlace(m, insns[k], code);
      SameHalf(m, m', p);
      if insns[k].size == 4 {
        SameHalf(m, m', p + 2);
      }
    }
  }

  lemma SameHalf(m: Mem, m': Mem, x: int)
    requires m'(x) == m(x) && m'(x + 1) == m(x + 1)
    ensures HalfAt(m', x) == HalfAt(m, x)
  {
  }

  // The machine executes the instruction that was read.
  lemma StepIs(exec: Exec, i: Insn, code: iset<int>, s: State)
    requires InPlace(s.mem, i, code) && s.pc == i.pc - 4 && s.thumb
    ensures Step(exec, s) == Execute(exec, Decode(i.insn1, i.insn2), i.insn1, i.insn2, s)
  {
    hide Execute, DecodeNarrow, DecodeWide, IsThumb2, HalfAt;
    var h1, h2 := HalfAt(s.mem, s.pc), HalfAt(s.mem, s.pc + 2);
    if !IsThumb2(h1) {
      NarrowAlone(exec, DecodeNarrow(h1), h1, h2, s);
    }
  }

  lemma FallsOn(exec: Exec, i: Inst, h1: Half, h2: Half, s: State)
    requires !Leaves(exec, i, h1, h2, s) && Execute(exec, i, h1, h2, s).Some? && (i.Adr? ==> i.d != 15)
    ensures var e := Execute(exec, i, h1, h2, s).value; e.pc == s.pc + Size(h1) && e.thumb == s.thumb
  {
    hide IsThumb2, M.Read32, LiteralAddress, M.ConditionHolds;
  }

  lemma EvenExpansion(h1: Half, h2: Half, p: int, a: int)
    ensures |Expand(h1, h2, p, a)| % 2 == 0 && |Expand(h1, h2, p, a)| <= 24
  {
    hide Decode, LdrRegBlock, LdrBRegBlock, LdrSelf, CmpBrStub, CondBrNarrowStub, CondBrWideStub, Halves, Imm20,
      Branching, LinkBlock, AddBlock, Address, ThumbPointer, Wrap32;
    var i, to := Decode(h1, h2), Address(Decode(h1, h2), p);
    EvenBranching(a % 4 != 0, CmpBrStub(h1), to, a);
    EvenBranching(a % 4 != 0, CondBrNarrowStub(h1), to, a);
    EvenBranching(a % 4 == 0, CondBrWideStub(h1, h2), to, a);
    EvenBranching(a % 4 == 0, CondBrWideStub(h1, h2), Wrap32(p + 4 + 2 * (Imm20(h1, h2) as int)), a);
    EvenBlocks(15, ThumbPointer(to), a);
    EvenLink(p, to, a);
    EvenLink(p, ThumbPointer(to), a);
    EvenAdd(h1, to, a);
    match i {
      case LdrLit(t, _, _) =>
        EvenBlocks(t, to, a);
        SelfSize(t);
      case Adr(d, _, _) => EvenBlocks(d, to, a);
      case AdrUnpredictable(d, _, _) => EvenBlocks(d, to, a);
      case _ =>
    }
  }

  lemma EvenBranching(pad: bool, branch: seq<Half>, target: U32, a: int)
    requires |branch| <= 2
    ensures |Branching(pad, branch, target, a)| % 2 == 0 && |Branching(pad, branch, target, a)| <= 24
  {
    hide LdrRegBlock, ThumbPointer, BImm;
    EvenBlocks(15, ThumbPointer(target), a + 2 * |Nops(pad) + branch + [BImm(6)]|);
  }

  lemma EvenLink(p: int, lit: U32, a: int)
    ensures |LinkBlock(p, lit, a)| % 2 == 0 && |LinkBlock(p, lit, a)| <= 24
  {
    hide LdrRegBlock, LdrBRegBlock;
    EvenBlocks(14, Wrap32(p + 5), a);
    EvenBlocks(15, lit, a + |LdrBRegBlock(14, Wrap32(p + 5), a)|);
  }

  lemma EvenAdd(h1: Half, pc: U32, a: int)
    ensures |AddBlock(h1, pc, a)| % 2 == 0 && |AddBlock(h1, pc, a)| <= 24
  {
    hide LdrBRegBlock, AddStub;
    EvenBlocks(7, pc, a + 2);
  }

  lemma EvenBlocks(reg: bv4, lit: U32, a: int)
    ensures |LdrRegBlock(reg, lit, a)| % 2 == 0 && |LdrBRegBlock(reg, lit, a)| % 2 == 0
    ensures |LdrRegBlock(reg, lit, a)| <= 10
  {
    hide LdrRegImm, LdrBRegCode, HalfBytes;
  }

  lemma SelfSize(reg: bv4)
    ensures |LdrSelf(reg)| <= 4
  {
    hide TransferWide, RtImm12, ByteOf, TransferNarrow, LdrRegImm;
  }

  lemma CodeKept(m: Mem, m': Mem, code: iset<int>, a: int, b: seq<bv8>)
    requires M.BytesAt(m, a, b) && Kept(m, m', code) && forall x :: a <= x < a + |b| ==> x in code
    ensures M.BytesAt(m', a, b)
  {
    forall n | 0 <= n < |b| ensures m'(a + n) == b[n] {
      assert m(a + n) == b[n] && a + n in code;
    }
  }

  // The first instruction and its expansion, and the rest of both.
  lemma HeldParts(insns: seq<Insn>, a: int, code: iset<int>, m: Mem)
    requires insns != [] && Held(insns, a, code, m)
    ensures var i := insns[0];
            var b := Expand(i.insn1, i.insn2, i.pc - 4, a);
            && InPlace(m, i, code) && M.BytesAt(m, a, b) && (forall x :: a <= x < a + |b| ==> x in code)
            && Held(insns[1..], a + |b|, code, m) && |ExpandAll(insns, a)| == |b| + |ExpandAll(insns[1..], a + |b|)|
  {
    hide Expand, InPlace, M.BytesAt;
    var i := insns[0];
    var b := Expand(i.insn1, i.insn2, i.pc - 4, a);
    M.BytesAtSplit(m, a, b, ExpandAll(insns[1..], a + |b|));
    forall k | 0 <= k < |insns[1..]| ensures InPlace(m, insns[1..][k], code) {
      assert insns[1..][k] == insns[k + 1];
    }
  }

  lemma PreservedRest(insns: seq<Insn>)
    requires insns != [] && AllPreserved(insns)
    ensures AllPreserved(insns[1..])
  {
    forall k | 0 <= k < |insns[1..]| ensures Preserved(insns[1..][k].insn1, insns[1..][k].insn2, insns[1..][k].pc - 4) {
      assert insns[1..][k] == insns[k + 1];
    }
  }

  // One instruction of the window, and its expansion.
  lemma InsnSimulates(exec: Exec, insns: seq<Insn>, a: int, code: iset<int>, s: State) returns (k: nat)
    requires insns != [] && Consecutive(insns, s.pc) && AllPreserved(insns) && Held(insns, a, code, s.mem)
    requires s.thumb && s.pc % 2 == 0 && a % 2 == 0 && 0 <= a && a + 24 <= TWO_32
    requires Step(exec, s).Some? && Kept(s.mem, Step(exec, s).value.mem, code)
    ensures var i := insns[0];
            && Step(exec, s) == Execute(exec, Decode(i.insn1, i.insn2), i.insn1, i.insn2, s)
            && Runs(exec, i.insn1, i.insn2, s.pc, a, s, k)
  {
    hide Step, Execute, Expand, Decode, Runs, Preserved, ExpandAll, InPlace;
    var i := insns[0];
    HeldParts(insns, a, code, s.mem);
    StepIs(exec, i, code, s);
    CodeKept(s.mem, Step(exec, s).value.mem, code, a, Expand(i.insn1, i.insn2, i.pc - 4, a));
    assert s.(pc := s.pc) == s;
    ExpansionSimulates(exec, i.insn1, i.insn2, s.pc, a, s);
    k :| Runs(exec, i.insn1, i.insn2, s.pc, a, s, k);
  }

  /**
   * From the first instruction of a window in the domain, at any even address, for any run until it leaves the window:
   * what became of the window leaves for the same place, or behind its own end where the window is left behind its end,
   * with the same registers, flags and memory.
   */
  lemma {:induction false} WindowSimulates(exec: Exec, insns: seq<Insn>, a: int, code: iset<int>, s: State, j: nat)
    requires Consecutive(insns, s.pc) && AllPreserved(insns) && Held(insns, a, code, s.mem)
    requires s.thumb && s.pc % 2 == 0 && a % 2 == 0 && 0 <= a && a + |ExpandAll(insns, a)| + 24 <= TWO_32
    requires LeavesAfter(exec, insns, code, s, j)
    ensures exists k: nat :: SameEnd(exec, insns, a, s, j, k)
    decreases |insns|
  {
    hide Step, Execute, Expand, Decode, Preserved, ExpandAll, InPlace, Leaves, Held, AllPreserved, Run, Kept;
    if insns == [] {
      RunNone(exec, s);
      RunNone(exec, s.(pc := a));
      NothingExpands(a);
      assert SameEnd(exec, insns, a, s, j, 0);
    } else {
      var i, e := insns[0], Step(exec, s).value;
      var k := InsnSimulates(exec, insns, a, code, s);
      RunMore(exec, s, j);
      if Leaves(exec, Decode(i.insn1, i.insn2), i.insn1, i.insn2, s) {
        RunNone(exec, e);
        assert s.(pc := s.pc) == s;
        assert SameEnd(exec, insns, a, s, j, k);
      } else {
        var b := Expand(i.insn1, i.insn2, i.pc - 4, a);
        if Decode(i.insn1, i.insn2).Adr? {
          AdrRegister(i.insn1, i.insn2);
        }
        FallsOn(exec, Decode(i.insn1, i.insn2), i.insn1, i.insn2, s);
        HeldParts(insns, a, code, s.mem);
        HeldStill(insns[1..], a + |b|, code, s.mem, e.mem);
        EvenExpansion(i.insn1, i.insn2, i.pc - 4, a);
        SumEven(s.pc, Size(i.insn1));
        SumEven(a, |b|);
        PreservedRest(insns);
        WindowSimulates(exec, insns[1..], a + |b|, code, e, j - 1);
        var n: nat :| SameEnd(exec, insns[1..], a + |b|, e, j - 1, n);
        assert s.(pc := s.pc) == s;
        RunAdds(exec, s.(pc := a), k, n);
        assert SameEnd(exec, insns, a, s, j, k + n);
      }
    }
  }

  lemma RunNone(exec: Exec, s: State)
    ensures Run(exec, s, 0) == Some(s)
  {
  }

  lemma RunMore(exec: Exec, s: State, j: nat)
    requires j > 0 && Step(exec, s).Some?
    ensures Run(exec, s, j) == Run(exec, Step(exec, s).value, j - 1)
  {
    hide Step;
  }

  lemma NothingExpands(a: int)
    ensures ExpandAll([], a) == []
  {
  }

  lemma SumEven(m: int, n: int)
    requires m % 2 == 0 && n % 2 == 0
    ensures (m + n) % 2 == 0
  {
    assert m + n == 2 * (m / 2 + n / 2);
  }
}
