/**
 * The fragment of the A64 machine the relocator is about, after section C6.2 of the
 * Arm Architecture Reference Manual for A-profile (DDI 0487). Every instruction that is
 * neither a branch nor PC-relative is one abstract step `exec`.
 */
module A64Machine {
  import opened A64Encoding
  import opened Numbers

  type Mem = int -> bv8
  type Regs = r: seq<U64> | |r| == 31 witness seq(31, _ => 0)
  type Vecs = r: seq<Vec> | |r| == 32 witness seq(32, _ => Vec(0, 0))

  datatype Vec = Vec(lo: U64, hi: U64)
  datatype Flags = Flags(n: bool, z: bool, c: bool, v: bool)
  datatype Core = Core(x: Regs, sp: U64, flags: Flags, v: Vecs, mem: Mem)
  datatype State = State(core: Core, pc: int)

  // What an instruction the model does not open does to everything but the PC.
  type Exec = (Word, Core) -> Core

  datatype Inst =
    | LdrLit(opc: bv2, simd: bool, rt: bv5, imm: bv19)
    | LdrImm(rt: bv5, rn: bv5, off: bv12)
    | CmpBr(is64: bool, nonzero: bool, rt: bv5, imm: bv19)
    | BCond(cond: bv4, imm: bv19)
    | TestBr(nonzero: bool, bit: bv6, rt: bv5, near: bv14)
    | Branch(disp: bv26)
    | BranchLink(disp: bv26)
    | Adr(page: bool, rd: bv5, rel: bv21)
    | Br(rn: bv5)
    | Blr(rn: bv5)
    | Other

  function Decode(w: Word): Inst {
    if w & 0x3b00_0000 == 0x1800_0000 then
      LdrLit((w >> 30) as bv2, w & 0x0400_0000 != 0, Rt(w), Imm19(w))
    else if w & 0x7e00_0000 == 0x3400_0000 then
      CmpBr(w & 0x8000_0000 != 0, w & 0x0100_0000 != 0, Rt(w), Imm19(w))
    else if w & 0xff00_0010 == 0x5400_0000 then
      BCond((w & 0xf) as bv4, Imm19(w))
    else if w & 0x7e00_0000 == 0x3600_0000 then
      TestBr(w & 0x0100_0000 != 0, (((w >> 26) & 0x20) | ((w >> 19) & 0x1f)) as bv6, Rt(w), ((w >> 5) & 0x3fff) as bv14)
    else if w & 0xfc00_0000 == 0x1400_0000 then
      Branch(Imm26(w))
    else if w & 0xfc00_0000 == 0x9400_0000 then
      BranchLink(Imm26(w))
    else if w & 0x1f00_0000 == 0x1000_0000 then
      Adr(w & 0x8000_0000 != 0, Rt(w), (((w >> 29) & 3) | ((w >> 3) & 0x1f_fffc)) as bv21)
    else if w & 0xffff_fc1f == 0xd61f_0000 || w & 0xffff_fc1f == 0xd65f_0000 then // BR, RET
      Br(Rn(w))
    else if w & 0xffff_fc1f == 0xd63f_0000 then
      Blr(Rn(w))
    else if w & 0xffc0_0000 == 0xf940_0000 then
      LdrImm(Rt(w), Rn(w), ((w >> 10) & 0xfff) as bv12)
    else
      Other
  }

  // ----- memory and registers -----

  function Fetch(m: Mem, a: int): Word {
    PackWord(m(a), m(a + 1), m(a + 2), m(a + 3))
  }

  function Read32(m: Mem, a: int): (r: int)
    ensures 0 <= r < 0x1_0000_0000
  {
    Combine32(m(a), m(a + 1), m(a + 2), m(a + 3))
  }

  function Read64(m: Mem, a: int): U64 {
    Read32(m, a) + 0x1_0000_0000 * Read32(m, a + 4)
  }

  function X(c: Core, n: bv5): U64 {
    if n == 31 then 0 else c.x[n as int]
  }

  function SetX(c: Core, n: bv5, v: U64): Core {
    if n == 31 then c else c.(x := c.x[n as int := v])
  }

  function Base(c: Core, n: bv5): U64 {
    if n == 31 then c.sp else c.x[n as int]
  }

  // ----- one step -----

  function ConditionHolds(cond: bv4, f: Flags): bool {
    var base :=
      if cond >> 1 == 0 then f.z
      else if cond >> 1 == 1 then f.c
      else if cond >> 1 == 2 then f.n
      else if cond >> 1 == 3 then f.v
      else if cond >> 1 == 4 then f.c && !f.z
      else if cond >> 1 == 5 then f.n == f.v
      else if cond >> 1 == 6 then f.n == f.v && !f.z
      else true;
    if cond & 1 == 1 && cond != 15 then !base else base
  }

  predicate BitSet(v: U64, bit: bv6) {
    (v / Pow2(bit as int)) % 2 == 1
  }

  // Whether the instruction leaves the sequential order.
  predicate Transfers(i: Inst, c: Core) {
    match i
    case CmpBr(is64, nonzero, rt, _) =>
      (if is64 then X(c, rt) == 0 else X(c, rt) % 0x1_0000_0000 == 0) != nonzero
    case BCond(cond, _) => ConditionHolds(cond, c.flags)
    case TestBr(nonzero, bit, rt, _) => BitSet(X(c, rt), bit) == nonzero
    case Branch(_) => true
    case BranchLink(_) => true
    case Br(_) => true
    case Blr(_) => true
    case _ => false
  }

  // Where it goes when it does.
  function Destination(i: Inst, c: Core, pc: int): int {
    match i
    case CmpBr(_, _, _, imm) => Wrap(pc + 4 * SignExtend19(imm))
    case BCond(_, imm) => Wrap(pc + 4 * SignExtend19(imm))
    case TestBr(_, _, _, near) => Wrap(pc + 4 * SignExtend14(near))
    case Branch(disp) => Wrap(pc + 4 * SignExtend26(disp))
    case BranchLink(disp) => Wrap(pc + 4 * SignExtend26(disp))
    case Br(rn) => X(c, rn)
    case Blr(rn) => X(c, rn)
    case _ => pc + 4
  }

  function LoadLiteral(opc: bv2, simd: bool, rt: bv5, ea: int, c: Core): Core {
    if simd then
      c.(v := c.v[rt as int :=
        if opc == 0 then Vec(Read32(c.mem, ea), 0)
        else if opc == 1 then Vec(Read64(c.mem, ea), 0)
        else Vec(Read64(c.mem, ea), Read64(c.mem, ea + 8))])
    else if opc == 0 then SetX(c, rt, Read32(c.mem, ea))
    else if opc == 1 then SetX(c, rt, Read64(c.mem, ea))
    else if opc == 2 then // LDRSW
      var r := Read32(c.mem, ea);
      SetX(c, rt, if r >= 0x8000_0000 then Wrap(r - 0x1_0000_0000) else r)
    else c // PRFM
  }

  // The registers and memory after the instruction at `pc`.
  function Effect(exec: Exec, i: Inst, w: Word, c: Core, pc: int): Core {
    match i
    case LdrLit(opc, simd, rt, imm) =>
      if opc == 3 && simd then exec(w, c) // unallocated
      else LoadLiteral(opc, simd, rt, Wrap(pc + 4 * SignExtend19(imm)), c)
    case LdrImm(rt, rn, off) => SetX(c, rt, Read64(c.mem, Wrap(Base(c, rn) + 8 * (off as int))))
    case Adr(page, rd, rel) =>
      SetX(c, rd, if page then Wrap(pc - pc % 4096 + 4096 * SignExtend21(rel)) else Wrap(pc + SignExtend21(rel)))
    case BranchLink(_) => SetX(c, 30, Wrap(pc + 4))
    case Blr(_) => SetX(c, 30, Wrap(pc + 4))
    case Other => exec(w, c)
    case _ => c
  }

  function Execute(exec: Exec, i: Inst, w: Word, s: State): State {
    State(Effect(exec, i, w, s.core, s.pc), if Transfers(i, s.core) then Destination(i, s.core, s.pc) else s.pc + 4)
  }

  function Step(exec: Exec, s: State): State {
    var w := Fetch(s.core.mem, s.pc);
    Execute(exec, Decode(w), w, s)
  }

  function Run(exec: Exec, s: State, k: nat): State
    decreases k
  {
    if k == 0 then s else Run(exec, Step(exec, s), k - 1)
  }

  // Every one of the first k instructions is fetched from an address in `code`.
  ghost predicate FetchesFrom(exec: Exec, s: State, k: nat, code: iset<int>)
    decreases k
  {
    k == 0 || (s.pc in code && FetchesFrom(exec, Step(exec, s), k - 1, code))
  }

  lemma {:induction false} RunAdds(exec: Exec, s: State, j: nat, k: nat, code: iset<int>)
    ensures Run(exec, s, j + k) == Run(exec, Run(exec, s, j), k)
    ensures FetchesFrom(exec, s, j, code) && FetchesFrom(exec, Run(exec, s, j), k, code) ==>
              FetchesFrom(exec, s, j + k, code)
    decreases j
  {
    hide Step;
    if j > 0 {
      RunAdds(exec, Step(exec, s), j - 1, k, code);
    }
  }

  // ----- code in memory -----

  ghost predicate BytesAt(m: Mem, a: int, b: seq<bv8>) {
    forall i :: 0 <= i < |b| ==> m(a + i) == b[i]
  }

  lemma BytesAtSplit(m: Mem, a: int, b: seq<bv8>, b': seq<bv8>)
    ensures BytesAt(m, a, b + b') <==> BytesAt(m, a, b) && BytesAt(m, a + |b|, b')
  {
    if BytesAt(m, a, b + b') {
      assert forall i :: 0 <= i < |b| ==> (b + b')[i] == b[i];
      forall i | 0 <= i < |b'| ensures m(a + |b| + i) == b'[i] {
        assert (b + b')[|b| + i] == b'[i];
        assert m(a + (|b| + i)) == (b + b')[|b| + i];
      }
    }
    if BytesAt(m, a, b) && BytesAt(m, a + |b|, b') {
      forall i | 0 <= i < |b + b'| ensures m(a + i) == (b + b')[i] {
        if i >= |b| {
          assert m(a + |b| + (i - |b|)) == b'[i - |b|];
        }
      }
    }
  }

  lemma FetchWord(m: Mem, a: int, w: Word)
    requires BytesAt(m, a, WordBytes(w))
    ensures Fetch(m, a) == w
  {
    var b := WordBytes(w);
    assert m(a + 0) == b[0] && m(a + 1) == b[1] && m(a + 2) == b[2] && m(a + 3) == b[3];
    PackWordBytes(w);
  }

  lemma ReadAddress(m: Mem, a: int, n: U64)
    requires BytesAt(m, a, AddressBytes(n))
    ensures Read64(m, a) == n
  {
    hide ByteOf, Combine32;
    BytesAtSplit(m, a, HalfBytes(n), HalfBytes(n / 0x1_0000_0000));
    ReadHalf(m, a, n);
    ReadHalf(m, a + 4, n / 0x1_0000_0000);
  }

  lemma ReadHalf(m: Mem, a: int, n: int)
    requires BytesAt(m, a, HalfBytes(n))
    ensures Read32(m, a) == n % 0x1_0000_0000
  {
    hide ByteOf, Combine32;
    var b := HalfBytes(n);
    assert m(a + 0) == b[0] && m(a + 1) == b[1] && m(a + 2) == b[2] && m(a + 3) == b[3];
    CombineHalf(n);
  }
}
