/** Outside its domain a Thumb rewrite does not preserve meaning: for each such instruction, a state that shows it. */
module ThumbExactness {
  import opened Numbers
  import opened A64Encoding
  import opened Wrappers
  import opened ThumbMachine
  import opened ThumbExpansion
  import opened ThumbRelocation
  import opened ProcessMemory
  import M = A64Machine

  // What (h1, h2) from p becomes simulates it, wherever it is placed, from whatever state, and whatever the
  // instructions that are not opened do.
  ghost predicate Faithful(h1: Half, h2: Half, p: int) {
    forall exec, a, s :: Placed(h1, h2, p, a, s) && Meant(exec, h1, h2, p, a, s) ==> Simulates(exec, h1, h2, p, a, s)
  }

  ghost predicate Simulates(exec: Exec, h1: Half, h2: Half, p: int, a: int, s: State) {
    exists k: nat :: Runs(exec, h1, h2, p, a, s, k)
  }

  // ----- memory that holds code at a and nothing executable elsewhere -----

  function Around(a: int, code: seq<bv8>, fill: bv8): Mem {
    x => if 0 <= x - a < |code| then code[x - a] else fill
  }

  lemma AroundHolds(a: int, code: seq<bv8>, fill: bv8)
    ensures M.BytesAt(Around(a, code, fill), a, code)
  {
  }

  // Two fillings that decode as nothing in the fragment.
  predicate Inert(fill: bv8) {
    fill == 0xde || fill == 0xdf
  }

  // Nothing is said of the fillings.
  ghost predicate Quiet(exec: Exec) {
    forall r: Regs, f: M.Flags, m: Mem :: exec(0xdede, 0, r, f, m, None).None? && exec(0xdfdf, 0, r, f, m, None).None?
  }

  lemma InertStops(exec: Exec, s: State, a: int, code: seq<bv8>, fill: bv8)
    requires s.mem == Around(a, code, fill) && Inert(fill) && Quiet(exec)
    requires s.thumb ==> s.pc + 1 < a || a + |code| <= s.pc
    ensures Step(exec, s) == None
  {
    InertAt(exec, s, fill);
  }

  lemma InertAt(exec: Exec, s: State, fill: bv8)
    requires Inert(fill) && Quiet(exec) && (s.thumb ==> s.mem(s.pc) == fill && s.mem(s.pc + 1) == fill)
    ensures Step(exec, s) == None
  {
    hide DecodeNarrow, DecodeWide, IsThumb2;
    if s.thumb {
      InertHalf(fill);
      assert HalfAt(s.mem, s.pc) == (fill as bv16) | ((fill as bv16) << 8);
    }
  }

  lemma InertHalf(fill: bv8)
    requires Inert(fill)
    ensures var h := (fill as bv16) | ((fill as bv16) << 8);
            !IsThumb2(h) && DecodeNarrow(h) == Other && (h == 0xdede || h == 0xdfdf)
  {
  }

  function Nothing(h1: Half, h2: Half, r: Regs, f: M.Flags, m: Mem, pc: Option<U32>): Option<Effect> { None }

  lemma InertWord(m: Mem, x: int, fill: bv8)
    requires Inert(fill) && m(x) == fill && m(x + 1) == fill && m(x + 2) == fill && m(x + 3) == fill
    ensures M.Read32(m, x) == if fill == 0xde then 0xdededede else 0xdfdfdfdf
  {
  }

  // A place for code of up to 28 bytes away from x and y.
  function Away(x: int, y: int): (a: int)
    ensures a % 4 == 0 && 64 <= a <= 192
    ensures !(a - 4 <= x < a + 28) && !(a - 4 <= y < a + 28)
  {
    if !(60 <= x < 92) && !(60 <= y < 92) then 64
    else if !(124 <= x < 156) && !(124 <= y < 156) then 128
    else 192
  }

  // A run that has stopped goes no further.
  lemma {:induction false} Stopped(exec: Exec, s: State, n: nat, k: nat)
    requires Run(exec, s, n).Some? && Step(exec, Run(exec, s, n).value) == None && k > n
    ensures Run(exec, s, k) == None
    decreases n
  {
    hide Step;
    if n > 0 {
      Stopped(exec, Step(exec, s).value, n - 1, k - 1);
    }
  }

  // The state that shows it: the expansion at a, nothing executable elsewhere.
  function Witness(a: int, code: seq<bv8>, fill: bv8, flags: M.Flags): State {
    State(seq(15, _ => 0), flags, Around(a, code, fill), a, true)
  }

  const CLEAR := M.Flags(false, false, false, false)

  // No number of steps from s will do.
  ghost predicate Fails(exec: Exec, h1: Half, h2: Half, p: int, a: int, s: State) {
    Placed(h1, h2, p, a, s) && Meant(exec, h1, h2, p, a, s) && forall k: nat :: !Runs(exec, h1, h2, p, a, s, k)
  }

  // ----- a branch to somewhere else -----

  // B T2 and B T4.
  lemma JumpFails(h1: Half, h2: Half, p: int) returns (a: int, s: State)
    requires var i := Decode(h1, h2); (i.BrNarrow? || (i.BrWide? && !i.link)) && !InDomain(i, p)
    requires p % 2 == 0
    ensures Fails(Nothing, h1, h2, p, a, s)
  {
    hide Decode, LdrRegBlock, Target, Address, Step, Around, InDomain;
    var i := Decode(h1, h2);
    a := Away(Address(i, p), Target(i, p));
    var code := Expand(h1, h2, p, a);
    s := Witness(a, code, 0xde, CLEAR);
    AroundHolds(a, code, 0xde);
    WideLinks(h1, h2);
    AddressExact(i, p);
    AddressEven(i, p);
    LdrPcLength(ThumbPointer(Address(i, p)), a);
    JumpRuns(Nothing, s, Address(i, p), a);
    var t := s.(pc := Address(i, p));
    RunOne(Nothing, s);
    InertStops(Nothing, t, a, code, 0xde);
    forall k: nat ensures !Runs(Nothing, h1, h2, p, a, s, k) {
      if k > 1 {
        Stopped(Nothing, s, 1, k);
      }
    }
  }

  // BL and BLX: the block at an alignment without a nop.
  lemma LinkSteps(exec: Exec, s: State, p: int, lit: U32, a: int)
    requires M.BytesAt(s.mem, a, LinkBlock(p, lit, a)) && s.pc == a && s.thumb
    requires a % 4 == 2 && 0 <= a && a + 24 <= TWO_32
    ensures var r := s.r[14 := Wrap32(p + 5)];
            && Run(exec, s, 0) == Some(s) && Run(exec, s, 1) == Some(s.(r := r, pc := a + 4))
            && Run(exec, s, 2) == Some(s.(r := r, pc := a + 10))
            && Run(exec, s, 3) == Some(s.(r := r, pc := lit - lit % 2, thumb := lit % 2 == 1))
    ensures |LinkBlock(p, lit, a)| == 18
  {
    hide M.BytesAt, LdrBRegBlock, LdrRegBlock, Step, Run, LoadHalves, LdrBSteps, Low, Wrap32;
    var link := LdrBRegBlock(14, Wrap32(p + 5), a);
    HighSteps(a);
    TenOn(a);
    M.BytesAtSplit(s.mem, a, link, LdrRegBlock(15, lit, a + |link|));
    LdrBTwoSteps(exec, s, a, 14, Wrap32(p + 5));
    LdrPcLength(lit, a + 10);
    LinkRuns(exec, s, p, lit, a);
  }

  lemma HighSteps(a: int)
    requires a % 4 == 2
    ensures LdrBSteps(14, a) == 2 && LoadHalves(14) == 2 && !Low(14)
  {
  }

  lemma TenOn(a: int)
    requires a % 4 == 2
    ensures a % 2 == 0 && (a + 10) % 2 == 0 && (a + 10) % 4 == 0
  {
    Fourfold(4 * (a / 4 + 3));
    assert a + 10 == 4 * (a / 4 + 3);
  }

  lemma LinkFails(exec: Exec, h1: Half, h2: Half, p: int, lit: U32, a: int, s: State)
    requires Quiet(exec) && p % 2 == 0 && a % 4 == 2 && 64 <= a <= 194
    requires Expand(h1, h2, p, a) == LinkBlock(p, lit, a)
    requires s == Witness(a, LinkBlock(p, lit, a), 0xde, CLEAR) && !(a - 2 <= lit - lit % 2 < a + 18)
    requires Meant(exec, h1, h2, p, a, s)
    requires var i := Decode(h1, h2);
             var e := Execute(exec, i, h1, h2, s.(pc := p)).value;
             e.flags == CLEAR ==>
               Leaves(exec, i, h1, h2, s.(pc := p)) && e.pc != lit - lit % 2 && !(a <= e.pc < a + 18)
    ensures Fails(exec, h1, h2, p, a, s)
  {
    hide Decode, LinkBlock, Execute, Leaves, Expand, Around, Step, Run;
    AroundHolds(a, LinkBlock(p, lit, a), 0xde);
    LinkSteps(exec, s, p, lit, a);
    var t := s.(r := s.r[14 := Wrap32(p + 5)], pc := lit - lit % 2, thumb := lit % 2 == 1);
    InertStops(exec, t, a, LinkBlock(p, lit, a), 0xde);
    forall k: nat ensures !Runs(exec, h1, h2, p, a, s, k) {
      if k > 3 {
        Stopped(exec, s, 3, k);
      }
    }
  }

  lemma BranchLinkFails(h1: Half, h2: Half, p: int) returns (a: int, s: State)
    requires var i := Decode(h1, h2); i.BrWide? && i.link && !InDomain(i, p)
    requires p % 2 == 0
    ensures Fails(Nothing, h1, h2, p, a, s)
  {
    hide Decode, LinkBlock, Target, Address, Around, InDomain;
    var i := Decode(h1, h2);
    var to := Address(i, p);
    var lit := if i.exchange then to else ThumbPointer(to);
    a := Away(to, Target(i, p)) + 2;
    s := Witness(a, LinkBlock(p, lit, a), 0xde, CLEAR);
    AroundHolds(a, LinkBlock(p, lit, a), 0xde);
    WideLinks(h1, h2);
    AddressExact(i, p);
    AddressEven(i, p);
    LinkFails(Nothing, h1, h2, p, lit, a, s);
  }

  // Flags under which a condition holds.
  function FlagsFor(cond: bv4): M.Flags {
    var c, want := cond >> 1, cond & 1 == 0;
    M.Flags(c == 2 && want, c == 0 && want, (c == 1 || c == 4) && want,
            (c == 3 && want) || ((c == 5 || c == 6) && !want))
  }

  lemma FlagsForHold(cond: bv4)
    requires cond >> 1 != 7
    ensures M.ConditionHolds(cond, FlagsFor(cond))
  {
  }

  lemma DecodedCond(h1: Half, h2: Half)
    ensures Decode(h1, h2).CondBrNarrow? || Decode(h1, h2).CondBrWide? ==> Decode(h1, h2).cond >> 1 != 7
  {
    hide DecodeNarrow, DecodeWide, IsThumb2;
    NarrowCond(h1);
    WideCond(h1, h2);
  }

  lemma NarrowCond(h1: Half)
    ensures DecodeNarrow(h1).CondBrNarrow? ==> DecodeNarrow(h1).cond >> 1 != 7
    ensures !DecodeNarrow(h1).CondBrWide?
  {
    hide Imm6Field, Imm8Field, Imm11Field, Imm8Words;
  }

  lemma WideCond(h1: Half, h2: Half)
    ensures DecodeWide(h1, h2).CondBrWide? ==> DecodeWide(h1, h2).cond >> 1 != 7
    ensures !DecodeWide(h1, h2).CondBrNarrow?
  {
    hide Imm20, Imm24, AdrImm12, RtField, Imm12Field;
  }

  // An expansion without padding, whose branch is taken: after two steps it is at the computed address.
  lemma TakenRuns(exec: Exec, s: State, a: int, branch: seq<Half>, target: U32)
    requires M.BytesAt(s.mem, a, Branching(false, branch, target, a)) && s.pc == a && s.thumb
    requires 1 <= |branch| <= 2 && SkipsB(branch, a) && target % 2 == 0
    requires Taken(Decode(branch[0], branch[|branch| - 1]), s)
    requires (a + 2 * |branch| + 2) % 4 == 0 && 0 <= a && a + 20 <= TWO_32
    ensures Run(exec, s, 1) == Some(s.(pc := a + 2 * |branch| + 2)) && Run(exec, s, 2) == Some(s.(pc := target))
    ensures |Branching(false, branch, target, a)| == 2 * |branch| + 10
  {
    hide Decode, IsThumb2, Code, Step, M.BytesAt, LdrRegBlock, BImm, Taken, Target, Has, SkipsB, ThumbPointer, Run;
    var hs := Nops(false) + branch + [BImm(6)];
    var l := a + 2 * |branch| + 2;
    assert a + 2 * |hs| == l;
    Fourfold(l);
    M.BytesAtSplit(s.mem, a, Code(hs), LdrRegBlock(15, ThumbPointer(target), l));
    LdrPcLength(ThumbPointer(target), l);
    BranchingParts(false, branch);
    StepsBranch(exec, s, a, hs, 0, branch);
    RunOne(exec, s);
    BranchRuns(exec, s, a, hs, 0, branch, target);
  }

  lemma BranchingFails(h1: Half, h2: Half, p: int, a: int, branch: seq<Half>, s: State)
    requires p % 2 == 0
    requires var i := Decode(h1, h2);
             && (i.CondBrNarrow? || i.CondBrWide?) && !InDomain(i, p) && Taken(i, s)
             && Expand(h1, h2, p, a) == Branching(false, branch, Address(i, p), a)
             && s == Witness(a, Expand(h1, h2, p, a), 0xde, s.flags)
             && !(a - 2 <= Address(i, p) < a + 26) && !(a - 2 <= Target(i, p) < a + 26)
             && Stands(branch, a, i, s) && 1 <= |branch| <= 2
    requires (a + 2 * |branch| + 2) % 4 == 0 && a % 2 == 0 && 0 <= a && a + 24 <= TWO_32
    ensures Fails(Nothing, h1, h2, p, a, s)
  {
    hide Decode, Expand, Branching, SkipsB, Taken, Target, Address, InDomain, Step, Around, M.BytesAt;
    var i := Decode(h1, h2);
    var code := Expand(h1, h2, p, a);
    AroundHolds(a, code, 0xde);
    AddressExact(i, p);
    AddressEven(i, p);
    TakenRuns(Nothing, s, a, branch, Address(i, p));
    var t := s.(pc := Address(i, p));
    TakenAnywhere(i, s, s.(pc := p));
    InertStops(Nothing, t, a, code, 0xde);
    forall k: nat ensures !Runs(Nothing, h1, h2, p, a, s, k) {
      if k > 2 {
        Stopped(Nothing, s, 2, k);
      }
    }
  }

  lemma CondBrNarrowFails(h1: Half, h2: Half, p: int) returns (a: int, s: State)
    requires Decode(h1, h2).CondBrNarrow? && !InDomain(Decode(h1, h2), p) && p % 2 == 0
    ensures Fails(Nothing, h1, h2, p, a, s)
  {
    hide Decode, Expand, Branching, Stands, M.ConditionHolds, FlagsFor, Target, Address, InDomain, Around, Fails,
      CondBrNarrowStub;
    var i := Decode(h1, h2);
    a := Away(Address(i, p), Target(i, p));
    s := Witness(a, Expand(h1, h2, p, a), 0xde, FlagsFor(i.cond));
    DecodedCond(h1, h2);
    FlagsForHold(i.cond);
    BranchingExpands(h1, h2, p, a);
    CondBrNarrowStands(h1, h2, a, s);
    BranchingFails(h1, h2, p, a, CondBrNarrowStub(h1), s);
  }

  lemma CondBrWideFails(h1: Half, h2: Half, p: int) returns (a: int, s: State)
    requires Decode(h1, h2).CondBrWide? && !InDomain(Decode(h1, h2), p) && p % 2 == 0
    ensures Fails(Nothing, h1, h2, p, a, s)
  {
    hide Decode, Expand, Branching, Stands, M.ConditionHolds, FlagsFor, Target, Address, InDomain, Around, Fails,
      CondBrWideStub;
    var i := Decode(h1, h2);
    a := Away(Address(i, p), Target(i, p)) + 2;
    s := Witness(a, Expand(h1, h2, p, a), 0xde, FlagsFor(i.cond));
    DecodedCond(h1, h2);
    FlagsForHold(i.cond);
    BranchingExpands(h1, h2, p, a);
    CondBrWideStands(h1, h2, a, s);
    BranchingFails(h1, h2, p, a, CondBrWideStub(h1, h2), s);
  }

  // ----- a load into the PC -----

  lemma LdrPcOneStep(exec: Exec, s: State, a: int, to: U32)
    requires M.BytesAt(s.mem, a, LdrBRegBlock(15, to, a)) && s.pc == a && s.thumb
    requires a % 4 == 0 && 0 <= a && a + 16 <= TWO_32
    ensures Run(exec, s, 0) == Some(s) && Run(exec, s, 1) == Some(SetReg(s, 15, to))
    ensures |LdrBRegBlock(15, to, a)| <= 16
  {
    hide Code, LdrBRegCode, Step, HalfBytes, LdrRegImm, Run, M.BytesAt;
    LdrBRegPlace(15, a);
    LoadsLiteral(exec, s, a, LdrBRegCode(15, true), 15, 4, to);
    RunOne(exec, s);
    RunNone(exec, s);
  }

  // It goes to the datum's address instead of where the datum says.
  lemma LdrPcFails(h1: Half, h2: Half, p: int) returns (a: int, s: State)
    requires Decode(h1, h2).LdrLit? && Decode(h1, h2).t == 15 && p % 2 == 0
    ensures Fails(Nothing, h1, h2, p, a, s)
  {
    hide Decode, Code, LdrBRegBlock, LdrSelf, Step, LiteralAddress, Run, M.BytesAt, M.Read32;
    var i := Decode(h1, h2);
    var to: int := Address(i, p);
    a := Away(to, to);
    var code, fill := Expand(h1, h2, p, a), if to % 2 == 0 then 0xdf else 0xde;
    s := Witness(a, code, fill, CLEAR);
    AroundHolds(a, code, fill);
    SelfLength();
    M.BytesAtSplit(s.mem, a, LdrBRegBlock(15, to, a), Code(LdrSelf(15)));
    LdrPcOneStep(Nothing, s, a, to);
    InertStops(Nothing, SetReg(s, 15, to), a, code, fill);
    InertWord(s.mem, to, fill);
    forall k: nat ensures !Runs(Nothing, h1, h2, p, a, s, k) {
      if k > 1 {
        Stopped(Nothing, s, 1, k);
      }
    }
  }

  lemma RunNone(exec: Exec, s: State)
    ensures Run(exec, s, 0) == Some(s)
  {
  }

  lemma SelfLength()
    ensures |LdrSelf(15)| <= 4
  {
    hide TransferWide, RtImm12, ByteOf, TransferNarrow;
  }

  // ----- an ADR off alignment -----

  // At an alignment without a nop: the load, then the B.
  lemma LdrBTwoSteps(exec: Exec, s: State, a: int, d: bv4, to: U32)
    requires M.BytesAt(s.mem, a, LdrBRegBlock(d, to, a)) && s.pc == a && s.thumb && d != 15
    requires a % 4 == (if Low(d) then 0 else 2) && 0 <= a && a + 16 <= TWO_32
    ensures Run(exec, s, 0) == Some(s)
    ensures Run(exec, s, 1) == Some(s.(r := s.r[d as int := to], pc := a + 2 * LoadHalves(d)))
    ensures Run(exec, s, 2) == Some(s.(r := s.r[d as int := to], pc := a + |LdrBRegBlock(d, to, a)|))
    ensures |LdrBRegBlock(d, to, a)| == 2 * LoadHalves(d) + 6
  {
    hide Code, LdrBRegCode, Step, HalfBytes, LdrRegImm, Run, M.BytesAt;
    var hs := LdrBRegCode(d, a % 4 == 0);
    LdrBRegPlace(d, a);
    M.BytesAtSplit(s.mem, a, Code(hs), HalfBytes(to));
    LoadsLiteral(exec, s, a, hs, d, if Low(d) then 0 else 4, to);
    LdrBRegBlockLoads(exec, d, to, s, a);
    RunOne(exec, s);
    RunNone(exec, s);
  }

  lemma AdrFails(h1: Half, h2: Half, p: int) returns (a: int, s: State)
    requires Decode(h1, h2).Adr? && !InDomain(Decode(h1, h2), p) && p % 2 == 0
    ensures Fails(Nothing, h1, h2, p, a, s)
  {
    hide Decode, LdrBRegBlock, Step, Run, M.BytesAt, LoadHalves, Low, LiteralAddress, Around;
    var i := Decode(h1, h2);
    var to := Address(i, p);
    a := 64 + if Low(i.d) then 0 else 2;
    var code := Expand(h1, h2, p, a);
    s := Witness(a, code, 0xde, CLEAR);
    AroundHolds(a, code, 0xde);
    AdrRegister(h1, h2);
    LdrBTwoSteps(Nothing, s, a, i.d, to);
    InertStops(Nothing, s.(r := s.r[i.d as int := to], pc := a + |code|), a, code, 0xde);
    AdrOff(i, p);
    forall k: nat ensures !Runs(Nothing, h1, h2, p, a, s, k) {
      if k > 2 {
        Stopped(Nothing, s, 2, k);
      } else if k == 2 {
        OtherRegister(s.r, i.d, to, LiteralAddress(i.add, i.imm12, p));
      }
    }
  }

  lemma OtherRegister(r: Regs, d: bv4, v: U32, v': U32)
    requires d != 15 && v != v'
    ensures r[d as int := v] != r[d as int := v']
  {
    assert r[d as int := v][d as int] == v && r[d as int := v'][d as int] == v';
  }

  // Off alignment the address formed is two too high.
  lemma AdrOff(i: Inst, p: int)
    requires i.Adr? && p % 2 == 0 && p % 4 != 0
    ensures Address(i, p) != LiteralAddress(i.add, i.imm12, p)
  {
    hide Displacement;
    Even4(p);
    Apart(Align4(p + 4) + Displacement(i.add, i.imm12), 2);
  }

  // ----- instructions that are not opened -----

  // Nothing changes but the flags, and only (h1, h2) is said to do anything.
  function Only(h1: Half, h2: Half, flags: M.Flags): Exec {
    (x1: Half, x2: Half, r: Regs, f: M.Flags, m: Mem, pc: Option<U32>) =>
      if x1 == h1 && x2 == h2 then Some(Effect(r, flags, m, None)) else None
  }

  // R0 gets the PC's value.
  function Tells(h1: Half, h2: Half): Exec {
    (x1: Half, x2: Half, r: Regs, f: M.Flags, m: Mem, pc: Option<U32>) =>
      if x1 == h1 && x2 == h2 then Some(Effect(r[0 := if pc.Some? then pc.value else 0], f, m, None)) else None
  }

  const SET := M.Flags(true, false, false, false)

  // None of them is one of the fillings.
  lemma NotFilling(h1: Half, h2: Half)
    requires !IsOpened(Decode(h1, h2)) && !Decode(h1, h2).Other?
    ensures h1 != 0xdede && h1 != 0xdfdf
  {
    hide DecodeWide;
  }

  lemma OnlyQuiet(h1: Half, h2: Half, flags: M.Flags)
    requires h1 != 0xdede && h1 != 0xdfdf
    ensures Quiet(Only(h1, Second(h1, h2), flags)) && Quiet(Tells(h1, Second(h1, h2)))
  {
    hide Second;
  }

  // BLX with H set.
  lemma BlxFails(h1: Half, h2: Half, p: int) returns (exec: Exec, a: int, s: State)
    requires Decode(h1, h2).BlxUndefined? && p % 2 == 0
    ensures Fails(exec, h1, h2, p, a, s)
  {
    hide Decode, LinkBlock, Around, Second, InDomain, SwappedField;
    var i := Decode(h1, h2);
    var to := Address(i, p);
    a := Away(to, to) + 2;
    s := Witness(a, LinkBlock(p, to, a), 0xde, CLEAR);
    exec := Only(h1, Second(h1, h2), SET);
    AroundHolds(a, LinkBlock(p, to, a), 0xde);
    AddressEven(i, p);
    NotFilling(h1, h2);
    OnlyQuiet(h1, h2, SET);
    LinkFails(exec, h1, h2, p, to, a, s);
  }

  lemma OnlySets(h1: Half, h2: Half, p: int, s: State)
    requires Decode(h1, h2).AdrUnpredictable?
    ensures var exec := Only(h1, Second(h1, h2), SET);
            var e := Execute(exec, Decode(h1, h2), h1, h2, s.(pc := p));
            e.Some? && e.value.flags == SET && e.value.mem == s.mem && Quiet(exec)
  {
    hide Second, Decode;
    NotFilling(h1, h2);
    OnlyQuiet(h1, h2, SET);
  }

  // The instruction sets the flags, and the expansion stops after n steps without setting them.
  lemma NeverSets(exec: Exec, h1: Half, h2: Half, p: int, a: int, s: State, n: nat)
    requires Placed(h1, h2, p, a, s) && s.pc == a
    requires var e := Execute(exec, Decode(h1, h2), h1, h2, s.(pc := p));
             e.Some? && e.value.flags == SET && e.value.mem == s.mem
    requires forall k: nat :: k <= n ==> Run(exec, s, k).Some? && Run(exec, s, k).value.flags == CLEAR
    requires Step(exec, Run(exec, s, n).value) == None
    ensures Fails(exec, h1, h2, p, a, s)
  {
    hide Decode, Execute, Expand, Step, Run, M.BytesAt;
    forall k: nat ensures !Runs(exec, h1, h2, p, a, s, k) {
      if k > n {
        Stopped(exec, s, n, k);
      }
    }
  }

  // ADR into SP: the address is formed, and nothing else.
  lemma AdrSpFails(h1: Half, h2: Half, p: int) returns (exec: Exec, a: int, s: State)
    requires var i := Decode(h1, h2); i.AdrUnpredictable? && i.d != 15
    requires p % 2 == 0
    ensures Fails(exec, h1, h2, p, a, s)
  {
    hide Decode, LdrBRegBlock, Step, Run, LoadHalves, Low, Around, Second, Only, Quiet, Execute, Fails;
    var i := Decode(h1, h2);
    var to := Address(i, p);
    a := 64 + if Low(i.d) then 0 else 2;
    var code := Expand(h1, h2, p, a);
    s := Witness(a, code, 0xde, CLEAR);
    exec := Only(h1, Second(h1, h2), SET);
    AroundHolds(a, code, 0xde);
    OnlySets(h1, h2, p, s);
    LdrBTwoSteps(exec, s, a, i.d, to);
    InertStops(exec, s.(r := s.r[i.d as int := to], pc := a + |code|), a, code, 0xde);
    NeverSets(exec, h1, h2, p, a, s, 2);
  }

  // ADR into PC: a jump to the address formed.
  lemma AdrPcFails(h1: Half, h2: Half, p: int) returns (exec: Exec, a: int, s: State)
    requires var i := Decode(h1, h2); i.AdrUnpredictable? && i.d == 15
    requires p % 2 == 0
    ensures Fails(exec, h1, h2, p, a, s)
  {
    hide Decode, LdrBRegBlock, Step, Run, Second, Around, Only, Quiet, Execute, Fails;
    var i := Decode(h1, h2);
    var to: int := Address(i, p);
    a := Away(to, to);
    var code := Expand(h1, h2, p, a);
    s := Witness(a, code, 0xde, CLEAR);
    exec := Only(h1, Second(h1, h2), SET);
    AroundHolds(a, code, 0xde);
    OnlySets(h1, h2, p, s);
    LdrPcOneStep(exec, s, a, to);
    InertStops(exec, SetReg(s, 15, to), a, code, 0xde);
    NeverSets(exec, h1, h2, p, a, s, 1);
  }

  // A control instruction is replaced by another one, of which nothing is said.
  lemma ControlFails(h1: Half, h2: Half, p: int) returns (exec: Exec, a: int, s: State)
    requires Decode(h1, h2).MiscControl? && CondBrWideStub(h1, h2) != [h1, h2] && p % 2 == 0
    ensures Fails(exec, h1, h2, p, a, s)
  {
    hide DecodeNarrow, DecodeWide, Step, Run, Around, Imm20, LdrRegBlock, Code, M.BytesAt, BImm;
    var stub := CondBrWideStub(h1, h2);
    a := 66;
    var code := Expand(h1, h2, p, a);
    s := Witness(a, code, 0xde, CLEAR);
    exec := Only(h1, Second(h1, h2), CLEAR);
    AroundHolds(a, code, 0xde);
    ControlWide(h1, h2);
    ControlStub(h1, h2);
    var hs := stub + [BImm(6)];
    assert Nops(false) + stub + [BImm(6)] == hs;
    M.BytesAtSplit(s.mem, a, Code(hs), code[|Code(hs)|..]);
    StepsCode(exec, s, a, hs, 0);
    RunNone(exec, s);
    forall k: nat ensures !Runs(exec, h1, h2, p, a, s, k) {
      if k > 0 {
        Stopped(exec, s, 0, k);
      }
    }
  }

  lemma ControlStub(h1: Half, h2: Half)
    requires Decode(h1, h2).MiscControl?
    ensures var stub := CondBrWideStub(h1, h2); IsThumb2(stub[0]) && DecodeWide(stub[0], stub[1]).MiscControl?
  {
    hide Imm24, AdrImm12, RtField, Imm12Field, Imm20, DecodeNarrow;
    NarrowNotControl(h1);
  }

  lemma NarrowNotControl(h1: Half)
    ensures !DecodeNarrow(h1).MiscControl?
  {
    hide Imm6Field, Imm8Field, Imm11Field, Imm8Words;
  }

  // ----- copies -----

  // A copy at a, from s.
  lemma CopyRuns(exec: Exec, h1: Half, h2: Half, p: int, a: int, s: State)
    requires Copied(Decode(h1, h2)) && Quiet(exec) && s.mem == Around(a, Expand(h1, h2, p, a), 0xde)
    requires s.pc == a && s.thumb
    ensures Run(exec, s, 0) == Some(s) && Run(exec, s, 1) == Execute(exec, Decode(h1, h2), h1, h2, s)
    ensures |Expand(h1, h2, p, a)| == Size(h1)
  {
    hide DecodeNarrow, DecodeWide, Step, IsThumb2, Code, Execute;
    AroundHolds(a, Expand(h1, h2, p, a), 0xde);
    CopySteps(exec, h1, h2, s, a);
    RunOne(exec, s);
    RunNone(exec, s);
  }

  // It reads the PC of where it stands.
  lemma ReadsPcFails(h1: Half, h2: Half, p: int) returns (exec: Exec, a: int, s: State)
    requires Decode(h1, h2).ReadsPc? && p % 2 == 0
    ensures Fails(exec, h1, h2, p, a, s)
  {
    hide Decode, Code, Step, Run, Around, Second, Wrap32;
    a := Apart4(p);
    var code := Expand(h1, h2, p, a);
    s := Witness(a, code, 0xde, CLEAR);
    exec := Tells(h1, Second(h1, h2));
    AroundHolds(a, code, 0xde);
    NotFilling(h1, h2);
    OnlyQuiet(h1, h2, CLEAR);
    CopyRuns(exec, h1, h2, p, a, s);
    var t := Execute(exec, Decode(h1, h2), h1, h2, s).value;
    InertStops(exec, t, a, code, 0xde);
    assert t.r[0] == Wrap32(a + 4) != Wrap32(p + 4);
    forall k: nat ensures !Runs(exec, h1, h2, p, a, s, k) {
      if k > 1 {
        Stopped(exec, s, 1, k);
      }
    }
  }

  // An aligned address whose PC, and what is behind it, is not that of p.
  lemma Apart4(p: int) returns (a: int)
    ensures (a == 64 || a == 128) && Wrap32(a + 4) != Wrap32(p + 4) && !(a <= Wrap32(p + 4) < a + 6)
  {
    a := if 60 <= Wrap32(p + 4) < 80 then 128 else 64;
  }

  // MOV of the PC.
  lemma MovPcFails(h1: Half, h2: Half, p: int) returns (a: int, s: State)
    requires var i := Decode(h1, h2); i.MovReg? && i.m == 15
    requires p % 2 == 0
    ensures Fails(Nothing, h1, h2, p, a, s)
  {
    hide Decode, Code, Step, Run, Around, Wrap32;
    var i := Decode(h1, h2);
    a := Apart4(p);
    var code := Expand(h1, h2, p, a);
    s := Witness(a, code, 0xde, CLEAR);
    AroundHolds(a, code, 0xde);
    MovNarrow(h1, h2);
    CopyRuns(Nothing, h1, h2, p, a, s);
    PcValues(p, a);
    var t := Execute(Nothing, i, h1, h2, s).value;
    InertStops(Nothing, t, a, code, 0xde);
    if i.d != 15 {
      OtherRegister(s.r, i.d, Wrap32(p + 4), Wrap32(a + 4));
    }
    forall k: nat ensures !Runs(Nothing, h1, h2, p, a, s, k) {
      if k > 1 {
        Stopped(Nothing, s, 1, k);
      }
    }
  }

  lemma PcValues(p: int, a: int)
    requires p % 2 == 0 && (a == 64 || a == 128)
    ensures Wrap32(a + 4) == a + 4 && Align2(Wrap32(p + 4)) == Wrap32(p + 4) && Align2(a + 4) == a + 4
  {
    EvenAddress(p, 0);
  }

  lemma MovNarrow(h1: Half, h2: Half)
    requires Decode(h1, h2).MovReg? || Decode(h1, h2).AddReg?
    ensures !IsThumb2(h1)
  {
    hide DecodeNarrow, IsThumb2;
    WideNotReg(h1, h2);
  }

  lemma WideNotReg(h1: Half, h2: Half)
    ensures !DecodeWide(h1, h2).MovReg? && !DecodeWide(h1, h2).AddReg?
  {
    hide Imm24, AdrImm12, RtField, Imm12Field, Imm20;
  }

  // ADD of a register to the PC: a branch that moves with it.
  lemma AddToPcFails(h1: Half, h2: Half, p: int) returns (a: int, s: State)
    requires var i := Decode(h1, h2); i.AddReg? && i.d == 15 && i.m != 15
    requires p % 2 == 0
    ensures Fails(Nothing, h1, h2, p, a, s)
  {
    hide Decode, Code, Step, Run, Around, Wrap32;
    var i := Decode(h1, h2);
    a := Apart4(p);
    var code := Expand(h1, h2, p, a);
    s := Witness(a, code, 0xde, CLEAR);
    AroundHolds(a, code, 0xde);
    MovNarrow(h1, h2);
    CopyRuns(Nothing, h1, h2, p, a, s);
    PcValues(p, a);
    var t := Execute(Nothing, i, h1, h2, s).value;
    InertStops(Nothing, t, a, code, 0xde);
    forall k: nat ensures !Runs(Nothing, h1, h2, p, a, s, k) {
      if k > 1 {
        Stopped(Nothing, s, 1, k);
      }
    }
  }

  // ADD of the PC: R7 is saved below SP, where the instruction writes nothing.
  lemma AddPcFails(h1: Half, h2: Half, p: int) returns (a: int, s: State)
    requires var i := Decode(h1, h2); i.AddReg? && i.d != 15 && i.m == 15
    requires p % 2 == 0
    ensures Fails(Nothing, h1, h2, p, a, s)
  {
    hide Decode, AddBlock, Step, Run, M.BytesAt;
    a := 66;
    var code := AddBlock(h1, Wrap32(p + 4), a);
    s := Witness(a, code, 0xde, CLEAR).(r := seq(15, n => if n == 13 then 0x1004 else 0));
    AroundHolds(a, code, 0xde);
    AddSteps(h1, h2, Wrap32(p + 4), a, s);
    RunNone(Nothing, s);
    assert s.mem(0x1000) == 0xde;
    forall k: nat ensures !Runs(Nothing, h1, h2, p, a, s, k) {
      if k > 5 {
        Stopped(Nothing, s, 5, k);
      }
    }
  }

  // The run has stored R7 below SP.
  ghost predicate Stored(s: State, pc: int) {
    s.thumb && s.pc == pc && s.mem(0x1000) == 0 && s.mem(80) == 0xde && s.mem(81) == 0xde
  }

  lemma AddSteps(h1: Half, h2: Half, pc: U32, a: int, s: State)
    requires var i := Decode(h1, h2); i.AddReg? && i.d != 15 && i.m == 15
    requires a == 66 && s.pc == a && s.thumb && s.mem == Around(a, AddBlock(h1, pc, a), 0xde)
    requires s.r[13] == 0x1004 && s.r[7] == 0
    ensures |AddBlock(h1, pc, a)| == 14
    ensures forall k :: 1 <= k <= 5 ==> Run(Nothing, s, k).Some? && Run(Nothing, s, k).value.mem(0x1000) == 0
    ensures Step(Nothing, Run(Nothing, s, 5).value) == None
  {
    hide Decode, LdrBRegBlock, Step, Run, M.BytesAt, HalfBytes, AddStub, Code;
    var block, tail := LdrBRegBlock(7, pc, 68), [AddStub(h1), 0xbc80];
    var code := AddBlock(h1, pc, a);
    AroundHolds(a, code, 0xde);
    M.BytesAtSplit(s.mem, a, Code([0xb480]) + block, Code(tail));
    M.BytesAtSplit(s.mem, a, Code([0xb480]), block);
    PushSteps(s, a);
    SevenLow();
    var s1 := Step(Nothing, s).value;
    PushKeeps(s, s1, block, Code(tail));
    LdrBTwoSteps(Nothing, s1, 68, 7, pc);
    var s3 := Run(Nothing, s1, 2).value;
    TailSteps(h1, h2, s3);
    var s4 := Step(Nothing, s3).value;
    var s5 := Step(Nothing, s4).value;
    RunOne(Nothing, s);
    RunAdds(Nothing, s, 1, 1);
    RunAdds(Nothing, s, 1, 2);
    RunOne(Nothing, s3);
    RunAdds(Nothing, s, 3, 1);
    RunOne(Nothing, s4);
    RunAdds(Nothing, s, 4, 1);
    InertAt(Nothing, s5, 0xde);
  }

  lemma SevenLow()
    ensures Low(7) && LoadHalves(7) == 1
  {
  }

  lemma PushSteps(s: State, a: int)
    requires a == 66 && s.pc == a && s.thumb && s.r[13] == 0x1004 && s.r[7] == 0
    requires M.BytesAt(s.mem, a, Code([0xb480]))
    ensures Step(Nothing, s) == Some(s.(r := s.r[13 := 0x1000], mem := Write(s.mem, 0x1000, HalfBytes(0)), pc := 68))
  {
    hide Code, Step, M.BytesAt, HalfBytes;
    assert DecodeNarrow(0xb480) == PushR7 && !IsThumb2(0xb480);
    StepsCode(Nothing, s, a, [0xb480], 0);
  }

  lemma PushKeeps(s: State, s1: State, block: seq<bv8>, tail: seq<bv8>)
    requires |block| <= 12 && |tail| == 4 && M.BytesAt(s.mem, 68, block) && M.BytesAt(s.mem, 68 + |block|, tail)
    requires s1.mem == Write(s.mem, 0x1000, HalfBytes(0))
    ensures M.BytesAt(s1.mem, 68, block) && M.BytesAt(s1.mem, 68 + |block|, tail)
    ensures s1.mem(0x1000) == 0 && s1.mem(80) == s.mem(80) && s1.mem(81) == s.mem(81)
  {
    BytesKept(s.mem, s1.mem, 0x1000, 4, 68, block);
    BytesKept(s.mem, s1.mem, 0x1000, 4, 68 + |block|, tail);
    assert HalfBytes(0)[0] == 0;
  }

  // The addition and the restoring of R7 store nothing.
  lemma TailSteps(h1: Half, h2: Half, s: State)
    requires var i := Decode(h1, h2); i.AddReg? && i.d != 15 && i.m == 15
    requires M.BytesAt(s.mem, 76, Code([AddStub(h1), 0xbc80])) && Stored(s, 76)
    ensures Step(Nothing, s).Some? && Stored(Step(Nothing, s).value, 78)
    ensures var t := Step(Nothing, Step(Nothing, s).value); t.Some? && Stored(t.value, 80)
  {
    hide Decode, Code, Step, M.BytesAt, M.Read32;
    var tail := [AddStub(h1), 0xbc80];
    StubAdds(h1, h2);
    StepsCode(Nothing, s, 76, tail, 0);
    var s1 := Step(Nothing, s).value;
    assert DecodeNarrow(0xbc80) == PopR7 && !IsThumb2(0xbc80);
    StepsCode(Nothing, s1, 76, tail, 1);
  }

  lemma StubAdds(h1: Half, h2: Half)
    requires Decode(h1, h2).AddReg?
    ensures !IsThumb2(AddStub(h1)) && DecodeNarrow(AddStub(h1)) == AddReg(Decode(h1, h2).d, 7)
  {
    hide DecodeWide, Imm6Field, Imm8Field, Imm11Field, Imm8Words;
    WideNotReg(h1, h2);
  }

  // Where the rewrite of an ADD of the PC keeps the R7 of its surroundings: a word below SP, not in the code.
  ghost predicate SavesSeven(s: State, a: int, n: nat) {
    4 <= s.r[13] && (s.r[13] <= a || a + n <= s.r[13] - 4)
  }

  /**
   * But for that word the rewrite does right: into any register but R7, SP and PC it adds the PC's value at the
   * original place, changes no other register and goes on behind itself.
   */
  lemma AddPcRuns(exec: Exec, h1: Half, h2: Half, p: int, a: int, s: State)
    requires var i := Decode(h1, h2); i.AddReg? && i.d !in {7, 13, 15} && i.m == 15
    requires Placed(h1, h2, p, a, s) && s.pc == a && SavesSeven(s, a, |Expand(h1, h2, p, a)|)
    ensures var d := Decode(h1, h2).d as int;
            Run(exec, s, LdrBSteps(7, a + 2) + 3)
            == Some(s.(r := s.r[d := Wrap32(s.r[d] as int + Wrap32(p + 4))],
                       mem := Write(s.mem, s.r[13] - 4, HalfBytes(s.r[7])), pc := a + |Expand(h1, h2, p, a)|))
  {
    hide Decode, LdrBRegBlock, Step, Run, M.BytesAt, HalfBytes, AddStub, Code, LdrBSteps, Execute, Wrap32;
    var pc, d := Wrap32(p + 4), Decode(h1, h2).d as int;
    var block, tail := LdrBRegBlock(7, pc, a + 2), [AddStub(h1), 0xbc80];
    var b, k := |block|, LdrBSteps(7, a + 2);
    M.BytesAtSplit(s.mem, a, Code([0xb480]) + block, Code(tail));
    M.BytesAtSplit(s.mem, a, Code([0xb480]), block);
    PushesSeven(exec, s, a);
    var s1 := Pushed(s, a + 2);
    BytesKept(s.mem, s1.mem, s.r[13] - 4, 4, a + 2, block);
    BytesKept(s.mem, s1.mem, s.r[13] - 4, 4, a + 2 + b, Code(tail));
    LdrBRegBlockLoads(exec, 7, pc, s1, a + 2);
    var s2 := s1.(r := s1.r[7 := pc], pc := a + 2 + b);
    StubAdds(h1, h2);
    AddsAndPops(exec, AddStub(h1), Decode(h1, h2).d, s2, a + 2 + b, s.r[7], s.r[13]);
    RunOne(exec, s);
    RunAdds(exec, s, 1, k);
    RunAdds(exec, s, 1 + k, 2);
    RestoresRegisters(s.r, d, pc, s.r[7], s.r[13]);
  }

  function Pushed(s: State, pc: int): State
    requires s.r[13] >= 4
  {
    s.(r := s.r[13 := s.r[13] - 4], mem := Write(s.mem, s.r[13] - 4, HalfBytes(s.r[7])), pc := pc)
  }

  lemma PushesSeven(exec: Exec, s: State, a: int)
    requires s.pc == a && s.thumb && s.r[13] >= 4 && M.BytesAt(s.mem, a, Code([0xb480]))
    ensures Step(exec, s) == Some(Pushed(s, a + 2))
    ensures SameOutside(s.mem, Pushed(s, a + 2).mem, s.r[13] - 4, 4)
    ensures M.BytesAt(Pushed(s, a + 2).mem, s.r[13] - 4, HalfBytes(s.r[7]))
  {
    hide Code, Step, HalfBytes;
    assert DecodeNarrow(0xb480) == PushR7 && !IsThumb2(0xb480);
    StepsCode(exec, s, a, [0xb480], 0);
  }

  predicate AddsSeven(stub: Half, d: bv4) {
    !IsThumb2(stub) && DecodeNarrow(stub) == AddReg(d, 7)
  }

  lemma AddsAndPops(exec: Exec, stub: Half, d: bv4, s: State, a: int, seven: U32, sp: U32)
    requires AddsSeven(stub, d) && d != 7 && d != 13 && d != 15
    requires M.BytesAt(s.mem, a, Code([stub, 0xbc80])) && s.pc == a && s.thumb
    requires sp >= 4 && s.r[13] == sp - 4 && M.BytesAt(s.mem, sp - 4, HalfBytes(seven))
    ensures Run(exec, s, 2)
         == Some(s.(r := s.r[d as int := Wrap32(s.r[d as int] as int + s.r[7])][7 := seven][13 := sp], pc := a + 4))
  {
    hide Code, Step, M.BytesAt, M.Read32, Run, HalfBytes;
    var s1 := s.(r := s.r[d as int := Wrap32(s.r[d as int] as int + s.r[7])], pc := a + 2);
    StepsCode(exec, s, a, [stub, 0xbc80], 0);
    assert Step(exec, s) == Some(s1) by { hide DecodeNarrow; }
    assert DecodeNarrow(0xbc80) == PopR7 && !IsThumb2(0xbc80);
    hide DecodeNarrow, AddsSeven;
    StepsCode(exec, s1, a, [stub, 0xbc80], 1);
    M.ReadHalf(s.mem, sp - 4, seven);
    RunOne(exec, s);
    RunOne(exec, s1);
    RunAdds(exec, s, 1, 1);
  }

  lemma RestoresRegisters(r: Regs, d: int, pc: U32, seven: U32, sp: U32)
    requires 0 <= d < 15 && d != 7 && d != 13 && seven == r[7] && sp == r[13] >= 4
    ensures var r2 := r[13 := sp - 4][7 := pc];
            r2[d := Wrap32(r2[d] as int + pc)][7 := seven][13 := sp] == r[d := Wrap32(r[d] as int + pc)]
  {
  }

  /**
   * What write_one emits preserves the meaning of an instruction, from everywhere and wherever it is placed, exactly
   * where `Preserved` says, for every pair of halfwords but ADD PC, PC, which is unpredictable.
   */
  lemma DomainIsExact(h1: Half, h2: Half, p: int)
    requires p % 2 == 0 && Decode(h1, h2) != AddReg(15, 15)
    ensures Faithful(h1, h2, p) <==> Preserved(h1, h2, p)
  {
    hide Decode, Runs, Placed, Meant, InDomain, CondBrWideStub;
    if Preserved(h1, h2, p) {
      forall exec, a, s | Placed(h1, h2, p, a, s) && Meant(exec, h1, h2, p, a, s)
        ensures Simulates(exec, h1, h2, p, a, s)
      {
        ExpansionSimulates(exec, h1, h2, p, a, s);
      }
    } else {
      var exec, a, s := Outside(h1, h2, p);
      assert !Simulates(exec, h1, h2, p, a, s);
    }
  }

  lemma Outside(h1: Half, h2: Half, p: int) returns (exec: Exec, a: int, s: State)
    requires p % 2 == 0 && Decode(h1, h2) != AddReg(15, 15) && !Preserved(h1, h2, p)
    ensures Fails(exec, h1, h2, p, a, s)
  {
    hide Decode, Fails, CondBrWideStub;
    exec := Nothing;
    match Decode(h1, h2) {
      case CondBrNarrow(_, _) => a, s := CondBrNarrowFails(h1, h2, p);
      case CondBrWide(_, _) => a, s := CondBrWideFails(h1, h2, p);
      case BrNarrow(_) => a, s := JumpFails(h1, h2, p);
      case BrWide(link, _, _) =>
        if link {
          a, s := BranchLinkFails(h1, h2, p);
        } else {
          a, s := JumpFails(h1, h2, p);
        }
      case LdrLit(_, _, _) => a, s := LdrPcFails(h1, h2, p);
      case Adr(_, _, _) => a, s := AdrFails(h1, h2, p);
      case AdrUnpredictable(d, _, _) =>
        if d == 15 {
          exec, a, s := AdrPcFails(h1, h2, p);
        } else {
          exec, a, s := AdrSpFails(h1, h2, p);
        }
      case BlxUndefined(_) => exec, a, s := BlxFails(h1, h2, p);
      case MiscControl => exec, a, s := ControlFails(h1, h2, p);
      case ReadsPc => exec, a, s := ReadsPcFails(h1, h2, p);
      case MovReg(_, _) => a, s := MovPcFails(h1, h2, p);
      case AddReg(d, m) =>
        if m == 15 {
          a, s := AddPcFails(h1, h2, p);
        } else {
          a, s := AddToPcFails(h1, h2, p);
        }
    }
  }
}
