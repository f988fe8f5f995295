/**
 * The fragment of the Thumb-2 machine the Thumb relocator is about, after sections A8.8.6, A8.8.7, A8.8.12, A8.8.18,
 * A8.8.25, A8.8.29, A8.8.62, A8.8.64, A8.8.103, A8.8.131, A8.8.133 and A8.8.203 of the ARMv7-A/R Architecture Reference
 * Manual (DDI 0406), outside IT blocks. Every other instruction is one abstract step `exec`.
 */
module ThumbMachine {
  import opened A64Encoding
  import opened Numbers
  import opened Wrappers
  import opened ProcessMemory
  import M = A64Machine

  type Half = bv16

  // A 32-bit address or register value.
  type U32 = n: int | 0 <= n < TWO_32

  type Mem = M.Mem
  type Regs = r: seq<U32> | |r| == 15 witness seq(15, _ => 0)

  // `pc` is the address of the instruction; the PC it reads is 4 more.
  datatype State = State(r: Regs, flags: M.Flags, mem: Mem, pc: int, thumb: bool)

  // What an instruction the machine does not open does to registers, flags and memory, and where it goes if not on to
  // the next; nothing is said of one that is undefined. It is told the PC only if it reads it.
  type Exec = (Half, Half, Regs, M.Flags, Mem, Option<U32>) -> Option<Effect>

  datatype Effect = Effect(r: Regs, flags: M.Flags, mem: Mem, go: Option<Place>)
  datatype Place = Place(pc: U32, thumb: bool)

  // MiscControl are barriers, hints and status register moves; ReadsPc is every instruction not opened whose effect
  // depends on where it stands.
  datatype Inst =
    | MovReg(d: bv4, m: bv4)
    | AddReg(d: bv4, m: bv4)
    | CmpBr(nonzero: bool, rn: bv3, imm6: bv6)
    | CondBrNarrow(cond: bv4, imm8: bv8)
    | BrNarrow(imm11: bv11)
    | CondBrWide(cond: bv4, imm20: bv20)
    | BrWide(link: bool, exchange: bool, imm24: bv24)
    | LdrLit(t: bv4, add: bool, imm12: bv12)
    | LdrImm(t: bv4, n: bv4, imm12: bv12)
    | StrImm(t: bv4, n: bv4, imm12: bv12)
    | Adr(d: bv4, add: bool, imm12: bv12)
    | AdrUnpredictable(d: bv4, add: bool, imm12: bv12)
    | PushR7
    | PopR7
    | MiscControl
    | BlxUndefined(imm24: bv24)
    | ReadsPc
    | Other

  function Wrap32(n: int): (r: U32)
    ensures 0 <= n < TWO_32 ==> r == n
  {
    n % TWO_32
  }

  function Align4(n: int): int {
    n - n % 4
  }

  // The first halfword of a 32-bit instruction (A6.1).
  predicate IsThumb2(h1: Half) {
    h1 & 0xf800 == 0xe800 || h1 & 0xf800 == 0xf000 || h1 & 0xf800 == 0xf800
  }

  function Size(h1: Half): (n: nat)
    ensures n == 2 || n == 4
  {
    if IsThumb2(h1) then 4 else 2
  }

  // i:imm5 of CBZ, and the immediates of the other 16-bit encodings.
  function Imm6Field(h1: Half): bv6 { (((h1 >> 3) & 0x1f) | ((h1 >> 4) & 0x20)) as bv6 }
  function Imm8Field(h1: Half): bv8 { (h1 & 0xff) as bv8 }
  function Imm11Field(h1: Half): bv11 { (h1 & 0x7ff) as bv11 }
  function Imm8Words(h1: Half): bv12 { ((h1 & 0xff) << 2) as bv12 }

  function DecodeNarrow(h1: Half): Inst {
    if h1 & 0xf500 == 0xb100 then CmpBr(h1 & 0x0800 != 0, (h1 & 7) as bv3, Imm6Field(h1))
    else if h1 & 0xf800 == 0x4800 then LdrLit(((h1 >> 8) & 7) as bv4, true, Imm8Words(h1))
    else if h1 & 0xf800 == 0xa000 then Adr(((h1 >> 8) & 7) as bv4, true, Imm8Words(h1))
    else if h1 & 0xf000 == 0xd000 && h1 & 0x0e00 != 0x0e00 then CondBrNarrow(((h1 >> 8) & 0xf) as bv4, Imm8Field(h1))
    else if h1 & 0xf800 == 0xe000 then BrNarrow(Imm11Field(h1))
    else if h1 & 0xff00 == 0x4600 then
      MovReg(((h1 & 7) | ((h1 >> 4) & 8)) as bv4, ((h1 >> 3) & 0xf) as bv4)
    else if h1 & 0xff00 == 0x4400 then
      AddReg(((h1 & 7) | ((h1 >> 4) & 8)) as bv4, ((h1 >> 3) & 0xf) as bv4)
    else if h1 & 0xf800 == 0x6800 then
      LdrImm((h1 & 7) as bv4, ((h1 >> 3) & 7) as bv4, (((h1 >> 6) & 0x1f) << 2) as bv12)
    else if h1 & 0xf800 == 0x6000 then
      StrImm((h1 & 7) as bv4, ((h1 >> 3) & 7) as bv4, (((h1 >> 6) & 0x1f) << 2) as bv12)
    else if h1 == 0xb480 then PushR7
    else if h1 == 0xbc80 then PopR7
    else if h1 & 0xff80 == 0x4780 || h1 & 0xfff8 == 0x4778 then ReadsPc // BLX (register), BX PC
    else Other
  }

  // S:J2:J1:imm6:imm11 (B, encoding T3).
  function Imm20(h1: Half, h2: Half): bv20 {
    ((((h1 >> 10) & 1) as bv20) << 19) | ((((h2 >> 11) & 1) as bv20) << 18) | ((((h2 >> 13) & 1) as bv20) << 17)
    | (((h1 & 0x3f) as bv20) << 11) | ((h2 & 0x7ff) as bv20)
  }

  // S:I1:I2:imm10:imm11, I1 = NOT(J1 EOR S), I2 = NOT(J2 EOR S) (B encoding T4, BL, BLX).
  function Imm24(h1: Half, h2: Half): bv24 {
    var s := ((h1 >> 10) & 1) as bv24;
    var i1 := (!((h2 >> 13) ^ (h1 >> 10)) & 1) as bv24;
    var i2 := (!((h2 >> 11) ^ (h1 >> 10)) & 1) as bv24;
    (s << 23) | (i1 << 22) | (i2 << 21) | (((h1 & 0x3ff) as bv24) << 11) | ((h2 & 0x7ff) as bv24)
  }

  // i:imm3:imm8
  function AdrImm12(h1: Half, h2: Half): bv12 {
    ((((h1 >> 10) & 1) as bv12) << 11) | ((((h2 >> 12) & 7) as bv12) << 8) | ((h2 & 0xff) as bv12)
  }

  // Rt and imm12 of a wide load.
  function RtField(h2: Half): bv4 { (h2 >> 12) as bv4 }
  function Imm12Field(h2: Half): bv12 { (h2 & 0xfff) as bv12 }

  // Table branches, and loads of other widths and of coprocessor registers relative to the PC.
  predicate IsReadsPc(h1: Half, h2: Half) {
    || (h1 & 0xfff0 == 0xe8d0 && h2 & 0xffe0 == 0xf000)
    || h1 & 0xfe5f == 0xe85f || h1 & 0xfe1f == 0xf81f || h1 & 0xee1f == 0xec1f
  }

  // An ADR into SP or PC, and a store of PC, are unpredictable.
  function DecodeWide(h1: Half, h2: Half): Inst {
    if h1 & 0xff7f == 0xf85f then LdrLit(RtField(h2), h1 & 0x80 != 0, Imm12Field(h2))
    else if h1 & 0xfff0 == 0xf8d0 then LdrImm(RtField(h2), (h1 & 0xf) as bv4, Imm12Field(h2))
    else if h1 & 0xfff0 == 0xf8c0 && h1 & 0xf != 0xf && h2 & 0xf000 != 0xf000 then
      StrImm(RtField(h2), (h1 & 0xf) as bv4, Imm12Field(h2))
    else if (h1 & 0xfbff == 0xf2af || h1 & 0xfbff == 0xf20f) && h2 & 0x8000 == 0 then
      var d, add := ((h2 >> 8) & 0xf) as bv4, h1 & 0xfbff == 0xf20f;
      if h2 & 0x0d00 != 0x0d00 then Adr(d, add, AdrImm12(h1, h2)) else AdrUnpredictable(d, add, AdrImm12(h1, h2))
    else if IsReadsPc(h1, h2) || h1 & 0xfff0 == 0xf8c0 then ReadsPc
    else if h1 & 0xf800 != 0xf000 then Other
    else if h2 & 0xd000 == 0x8000 then
      if h1 & 0x0380 != 0x0380 then CondBrWide(((h1 >> 6) & 0xf) as bv4, Imm20(h1, h2)) else MiscControl
    else if h2 & 0xd000 == 0x9000 then BrWide(false, false, Imm24(h1, h2))
    else if h2 & 0xd000 == 0xd000 then BrWide(true, false, Imm24(h1, h2))
    else if h2 & 0xd001 == 0xc000 then BrWide(true, true, Imm24(h1, h2))
    else if h2 & 0xd001 == 0xc001 then BlxUndefined(Imm24(h1, h2))
    else Other
  }

  function Decode(h1: Half, h2: Half): Inst {
    if IsThumb2(h1) then DecodeWide(h1, h2) else DecodeNarrow(h1)
  }

  // Where the immediates of the decoded instructions come from.
  lemma NarrowImmediates(h1: Half)
    ensures match DecodeNarrow(h1)
            case CmpBr(_, _, imm) => imm == Imm6Field(h1)
            case CondBrNarrow(_, imm) => imm == Imm8Field(h1)
            case BrNarrow(imm) => imm == Imm11Field(h1)
            case LdrLit(t, add, imm) => t == ((h1 >> 8) & 7) as bv4 && add && imm == Imm8Words(h1)
            case Adr(d, add, imm) => d == ((h1 >> 8) & 7) as bv4 && add && imm == Imm8Words(h1)
            case CondBrWide(_, _) => false
            case BrWide(_, _, _) => false
            case AdrUnpredictable(_, _, _) => false
            case MiscControl => false
            case BlxUndefined(_) => false
            case AddReg(d, m) => d == (((h1 & 7) | ((h1 >> 4) & 8)) as bv4) && m == (((h1 >> 3) & 0xf) as bv4)
            case _ => true
  {
    hide Imm6Field, Imm8Field, Imm11Field, Imm8Words;
  }

  lemma WideImmediates(h1: Half, h2: Half)
    ensures match DecodeWide(h1, h2)
            case CondBrWide(_, imm) => imm == Imm20(h1, h2)
            case LdrLit(t, add, imm) => t == RtField(h2) && add == (h1 & 0x80 != 0) && imm == Imm12Field(h2)
            case Adr(d, add, imm) =>
              d == ((h2 >> 8) & 0xf) as bv4 && add == (h1 & 0xfbff == 0xf20f) && imm == AdrImm12(h1, h2)
            case AdrUnpredictable(d, add, imm) =>
              d == ((h2 >> 8) & 0xf) as bv4 && add == (h1 & 0xfbff == 0xf20f) && imm == AdrImm12(h1, h2)
            case BrWide(link, exchange, imm) => imm == Imm24(h1, h2) && (exchange ==> link)
            case BlxUndefined(imm) => imm == Imm24(h1, h2)
            case AddReg(_, _) => false
            case CmpBr(_, _, _) => false
            case CondBrNarrow(_, _) => false
            case BrNarrow(_) => false
            case _ => true
  {
    hide Imm20, Imm24, AdrImm12, RtField, Imm12Field;
  }

  // ----- displacements -----

  function Signed8(b: bv8): int { if b as int >= 0x80 then b as int - 0x100 else b as int }
  function Signed11(b: bv11): int { if b as int >= 0x400 then b as int - 0x800 else b as int }
  function Signed20(b: bv20): int { if b as int >= 0x8_0000 then b as int - 0x10_0000 else b as int }
  function Signed24(b: bv24): int { if b as int >= 0x80_0000 then b as int - 0x100_0000 else b as int }

  // ----- one step -----

  function Reg(s: State, n: bv4): U32 {
    if n == 15 then Wrap32(s.pc + 4) else s.r[n as int]
  }

  // A load or address computation into register n; into the PC it is an interworking branch.
  function SetReg(s: State, n: bv4, v: U32): State {
    if n == 15 then s.(pc := v - v % 2, thumb := v % 2 == 1)
    else s.(r := s.r[n as int := v])
  }

  // Whether the instruction leaves the sequential order by a branch.
  predicate Taken(i: Inst, s: State) {
    match i
    case CmpBr(nonzero, n, _) => (s.r[n as int] == 0) != nonzero
    case CondBrNarrow(cond, _) => M.ConditionHolds(cond, s.flags)
    case CondBrWide(cond, _) => M.ConditionHolds(cond, s.flags)
    case BrNarrow(_) => true
    case BrWide(_, _, _) => true
    case LdrLit(t, _, _) => t == 15
    case LdrImm(t, _, _) => t == 15
    case _ => false
  }

  // Where a branch with an immediate goes.
  function Target(i: Inst, pc: int): U32 {
    match i
    case CmpBr(_, _, imm) => Wrap32(pc + 4 + 2 * (imm as int))
    case CondBrNarrow(_, imm) => Wrap32(pc + 4 + 2 * Signed8(imm))
    case CondBrWide(_, imm) => Wrap32(pc + 4 + 2 * Signed20(imm))
    case BrNarrow(imm) => Wrap32(pc + 4 + 2 * Signed11(imm))
    case BrWide(_, exchange, imm) =>
      if exchange then Wrap32(Align4(pc + 4) + 2 * Signed24(imm)) else Wrap32(pc + 4 + 2 * Signed24(imm))
    case _ => 0
  }

  function Displacement(add: bool, imm: bv12): int {
    if add then imm as int else -(imm as int)
  }

  // The address an LDR (literal) reads and an ADR forms.
  function LiteralAddress(add: bool, imm: bv12, pc: int): U32 {
    Wrap32(Align4(pc + 4) + Displacement(add, imm))
  }

  // The second halfword, of a 32-bit instruction.
  function Second(h1: Half, h2: Half): Half {
    if IsThumb2(h1) then h2 else 0
  }

  // What the machine does not open, at s.pc.
  function Unopened(exec: Exec, i: Inst, h1: Half, h2: Half, s: State): Option<Effect> {
    exec(h1, Second(h1, h2), s.r, s.flags, s.mem,
         if i.ReadsPc? || i.AdrUnpredictable? then Some(Wrap32(s.pc + 4)) else None)
  }

  predicate IsOpened(i: Inst) {
    !i.AdrUnpredictable? && !i.MiscControl? && !i.BlxUndefined? && !i.ReadsPc? && !i.Other?
  }

  // The instruction (h1, h2) at s.pc.
  function Execute(exec: Exec, i: Inst, h1: Half, h2: Half, s: State): Option<State> {
    var next := s.(pc := s.pc + Size(h1));
    match i
    case MovReg(d, m) => Some(if d == 15 then s.(pc := Align2(Reg(s, m))) else SetReg(next, d, Reg(s, m)))
    case AddReg(d, m) =>
      var sum := Wrap32(Reg(s, d) as int + Reg(s, m) as int);
      Some(if d == 15 then s.(pc := Align2(sum)) else SetReg(next, d, sum))
    case LdrLit(t, add, imm) => Some(SetReg(next, t, M.Read32(s.mem, LiteralAddress(add, imm, s.pc))))
    case LdrImm(t, n, imm) => Some(SetReg(next, t, M.Read32(s.mem, Wrap32(Reg(s, n) + imm as int))))
    case StrImm(t, n, imm) => Some(next.(mem := Write(s.mem, Wrap32(Reg(s, n) + imm as int), HalfBytes(Reg(s, t)))))
    case Adr(d, add, imm) => Some(SetReg(next, d, LiteralAddress(add, imm, s.pc)))
    case PushR7 =>
      var sp := Wrap32(s.r[13] as int - 4);
      Some(next.(r := s.r[13 := sp], mem := Write(s.mem, sp, HalfBytes(s.r[7]))))
    case PopR7 => Some(next.(r := s.r[7 := M.Read32(s.mem, s.r[13])][13 := Wrap32(s.r[13] as int + 4)]))
    case BrWide(true, exchange, _) =>
      Some(s.(r := s.r[14 := Wrap32(s.pc + 5)], pc := Target(i, s.pc), thumb := !exchange))
    case BrWide(false, _, _) => Some(s.(pc := Target(i, s.pc)))
    case CmpBr(_, _, _) => Some(if Taken(i, s) then s.(pc := Target(i, s.pc)) else next)
    case CondBrNarrow(_, _) => Some(if Taken(i, s) then s.(pc := Target(i, s.pc)) else next)
    case CondBrWide(_, _) => Some(if Taken(i, s) then s.(pc := Target(i, s.pc)) else next)
    case BrNarrow(_) => Some(s.(pc := Target(i, s.pc)))
    case _ =>
      match Unopened(exec, i, h1, h2, s)
      case None => None
      case Some(e) =>
        var go := if e.go.Some? then e.go.value else Place(0, true);
        Some(State(e.r, e.flags, e.mem, if e.go.Some? then go.pc else next.pc,
                   if e.go.Some? then go.thumb else s.thumb))
  }

  // Whether the instruction leaves the sequential order.
  predicate Leaves(exec: Exec, i: Inst, h1: Half, h2: Half, s: State) {
    match i
    case MovReg(d, _) => d == 15
    case AddReg(d, _) => d == 15
    case _ =>
      if IsOpened(i) then Taken(i, s)
      else
        match Unopened(exec, i, h1, h2, s)
        case None => false
        case Some(e) => e.go.Some?
  }

  function Align2(n: int): int {
    n - n % 2
  }

  // The halfword at a.
  function HalfAt(m: Mem, a: int): Half {
    (m(a) as bv16) | ((m(a + 1) as bv16) << 8)
  }

  function Step(exec: Exec, s: State): Option<State> {
    if !s.thumb then None
    else
      var h1, h2 := HalfAt(s.mem, s.pc), HalfAt(s.mem, s.pc + 2);
      Execute(exec, Decode(h1, h2), h1, h2, s)
  }

  function Run(exec: Exec, s: State, k: nat): Option<State>
    decreases k
  {
    if k == 0 then Some(s)
    else
      match Step(exec, s)
      case None => None
      case Some(s') => Run(exec, s', k - 1)
  }

  // ----- code in memory -----

  function HalfwordBytes(h: Half): (b: seq<bv8>)
    ensures |b| == 2
  {
    [(h & 0xff) as bv8, (h >> 8) as bv8]
  }

  // Halfwords as they lie in memory.
  function Code(hs: seq<Half>): (b: seq<bv8>)
    ensures |b| == 2 * |hs|
  {
    if hs == [] then [] else HalfwordBytes(hs[0]) + Code(hs[1..])
  }

  lemma FetchHalf(m: Mem, a: int, h: Half)
    requires M.BytesAt(m, a, HalfwordBytes(h))
    ensures HalfAt(m, a) == h
  {
    var b := HalfwordBytes(h);
    assert m(a + 0) == b[0] && m(a + 1) == b[1];
  }

  // Code fetches as the halfwords it was made from.
  lemma {:induction false} FetchCode(m: Mem, a: int, hs: seq<Half>, i: nat)
    requires M.BytesAt(m, a, Code(hs)) && i < |hs|
    ensures HalfAt(m, a + 2 * i) == hs[i]
    decreases i
  {
    hide HalfwordBytes, HalfAt;
    M.BytesAtSplit(m, a, HalfwordBytes(hs[0]), Code(hs[1..]));
    FetchHalf(m, a, hs[0]);
    if i > 0 {
      FetchCode(m, a + 2, hs[1..], i - 1);
    }
  }

  lemma {:induction false} CodeAppend(hs: seq<Half>, hs': seq<Half>)
    ensures Code(hs + hs') == Code(hs) + Code(hs')
  {
    hide HalfwordBytes;
    if hs == [] {
      assert hs + hs' == hs';
    } else {
      CodeAppend(hs[1..], hs');
      assert (hs + hs')[1..] == hs[1..] + hs';
    }
  }

  // What the machine does at the i-th halfword of code placed at `a`.
  lemma StepsCode(exec: Exec, s: State, a: int, hs: seq<Half>, i: nat)
    requires M.BytesAt(s.mem, a, Code(hs)) && i < |hs| && s.pc == a + 2 * i && s.thumb
    ensures !IsThumb2(hs[i]) ==> Step(exec, s) == Execute(exec, DecodeNarrow(hs[i]), hs[i], 0, s)
    ensures IsThumb2(hs[i]) && i + 1 < |hs| ==>
              Step(exec, s) == Execute(exec, DecodeWide(hs[i], hs[i + 1]), hs[i], hs[i + 1], s)
  {
    hide IsThumb2, DecodeNarrow, DecodeWide, Execute, Code, HalfAt;
    FetchCode(s.mem, a, hs, i);
    if i + 1 < |hs| {
      FetchCode(s.mem, a, hs, i + 1);
    }
    if !IsThumb2(hs[i]) {
      NarrowAlone(exec, DecodeNarrow(hs[i]), hs[i], HalfAt(s.mem, s.pc + 2), s);
    }
  }

  // A 16-bit instruction does not depend on what follows it.
  lemma NarrowAlone(exec: Exec, i: Inst, h1: Half, h2: Half, s: State)
    requires !IsThumb2(h1)
    ensures Execute(exec, i, h1, h2, s) == Execute(exec, i, h1, 0, s)
  {
    hide IsThumb2, SetReg, M.Read32, Taken, Target;
  }

  lemma {:induction false} RunAdds(exec: Exec, s: State, j: nat, k: nat)
    requires Run(exec, s, j).Some?
    ensures Run(exec, s, j + k) == Run(exec, Run(exec, s, j).value, k)
    decreases j
  {
    hide Step;
    if j > 0 {
      RunAdds(exec, Step(exec, s).value, j - 1, k);
    }
  }

  lemma RunOne(exec: Exec, s: State)
    ensures Run(exec, s, 1) == Step(exec, s)
  {
    hide Step;
    if Step(exec, s).Some? {
      assert Run(exec, Step(exec, s).value, 0) == Step(exec, s);
    }
  }
}
