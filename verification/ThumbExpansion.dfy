/**
 * What the Thumb writer emits for loads of inline literals (writer-thumb.c), and that it runs as meant at both
 * alignments.
 */
module ThumbExpansion {
  import opened Numbers
  import opened A64Encoding
  import opened Wrappers
  import opened ThumbMachine
  import M = A64Machine

  // mov r8, r8
  const NOP: Half := 0x46c0

  // thumb_writer_put_b_imm
  function BImm(imm: bv32): Half {
    0xe000 | (((imm / 2) & 0x7ff) as bv16)
  }

  // (uint16_t)(reg << 12 | n), from the two low bytes of n.
  function RtImm12(reg: bv4, b0: bv8, b1: bv8): Half {
    ((reg as bv16) << 12) | (b0 as bv16) | ((b1 as bv16) << 8)
  }

  // The first halfword of LDR (literal), encoding T2.
  function LdrWide(add: bool): Half {
    0xf85f | (if add then 0x80 else 0)
  }

  // LDR (literal), encoding T1, with imm8 == b.
  function LdrNarrow(reg: bv4, b: bv8): Half {
    0x4800 | ((reg as bv16) << 8) | (b as bv16)
  }

  // thumb_writer_put_ldr_reg_imm; empty where it emits nothing.
  function LdrRegImm(reg: bv4, imm: int): (hs: seq<Half>)
    ensures |hs| <= 2
  {
    if Low(reg) && 0 <= imm < 0x400 then [LdrNarrow(reg, ByteOf(imm / 4))]
    else if imm < 0x1000 then
      var n := if imm < 0 then -imm else imm;
      [LdrWide(imm >= 0), RtImm12(reg, ByteOf(n), ByteOf(n / 0x100))]
    else []
  }

  // R0 to R7.
  predicate Low(reg: bv4) {
    reg <= 7
  }

  function Nops(needed: bool): (hs: seq<Half>)
    ensures |hs| <= 1
  {
    if needed then [NOP] else []
  }

  // The halfwords before the literal of thumb_writer_put_ldr_reg_address, where `aligned` says the first is at a
  // multiple of four: the load, padded so that the literal is aligned.
  function LdrRegCode(reg: bv4, aligned: bool): (hs: seq<Half>) {
    LdrRegImm(reg, if aligned || Low(reg) then 0 else 4) + Nops(aligned == Low(reg))
  }

  // The same of thumb_writer_put_ldr_b_reg_address, where a B jumps the literal.
  function LdrForB(reg: bv4, aligned: bool): (hs: seq<Half>)
    ensures |hs| <= 3
  {
    LdrRegImm(reg, if aligned && Low(reg) then 0 else 4) + Nops(aligned != Low(reg))
  }

  function LdrBRegCode(reg: bv4, aligned: bool): (hs: seq<Half>) {
    LdrForB(reg, aligned) + [BImm(2)]
  }

  // ----- decoding -----

  lemma WideFields(b0: bv8, b1: bv8, reg: bv4)
    requires b1 as int < 16
    ensures var h := RtImm12(reg, b0, b1);
            RtField(h) == reg && Imm12Field(h) as int == b0 as int + 0x100 * (b1 as int)
  {
    hide RtImm12, RtField, Imm12Field;
    var n := (b1 & 0xf) as bv4;
    NibbleOf(b1);
    WideFieldBits(b0, n, reg);
    Imm12Value(b0, n);
  }

  lemma NibbleOf(b: bv8)
    requires b as int < 16
    ensures ((b & 0xf) as bv4) as bv8 == b && ((b & 0xf) as bv4) as int == b as int
  {
    assert b < 16;
  }

  lemma WideFieldBits(b0: bv8, b1: bv4, reg: bv4)
    ensures var h := RtImm12(reg, b0, b1 as bv8);
            RtField(h) == reg && Imm12Field(h) == (b0 as bv12) | ((b1 as bv12) << 8)
  {
  }

  lemma Imm12Value(b0: bv8, b1: bv4)
    ensures ((b0 as bv12) | ((b1 as bv12) << 8)) as int == b0 as int + 0x100 * (b1 as int)
  {
  }

  lemma WideDecodes(add: bool, h2: Half)
    ensures IsThumb2(LdrWide(add)) && DecodeWide(LdrWide(add), h2) == LdrLit(RtField(h2), add, Imm12Field(h2))
  {
    hide RtField, Imm12Field;
  }

  function Times4(b: bv8): bv12 {
    (b as bv12) << 2
  }

  lemma NarrowDecodes(b: bv8, reg: bv4)
    requires Low(reg)
    ensures !IsThumb2(LdrNarrow(reg, b)) && DecodeNarrow(LdrNarrow(reg, b)) == LdrLit(reg, true, Times4(b))
    ensures Displacement(true, Times4(b)) == 4 * (b as int)
  {
  }

  // An offset thumb_writer_put_ldr_reg_imm gets right: in reach and, in the narrow encoding, a multiple of four.
  predicate Encodable(reg: bv4, imm: int) {
    -0x1000 < imm < 0x1000 && (Low(reg) && 0 <= imm < 0x400 ==> imm % 4 == 0)
  }

  lemma NarrowLoad(reg: bv4, imm: int)
    requires Low(reg) && 0 <= imm < 0x400
    ensures LdrRegImm(reg, imm) == [LdrNarrow(reg, ByteOf(imm / 4))]
    ensures var h := LdrNarrow(reg, ByteOf(imm / 4));
            !IsThumb2(h) && DecodeNarrow(h) == LdrLit(reg, true, Times4(ByteOf(imm / 4)))
            && Displacement(true, Times4(ByteOf(imm / 4))) == imm - imm % 4
  {
    hide ByteOf, DecodeNarrow, IsThumb2, LdrNarrow, Times4, Displacement;
    NarrowDecodes(ByteOf(imm / 4), reg);
  }

  lemma WideLoad(reg: bv4, imm: int)
    requires -0x1000 < imm < 0x1000 && !(Low(reg) && 0 <= imm < 0x400)
    ensures var n := if imm < 0 then -imm else imm;
            var h2 := RtImm12(reg, ByteOf(n), ByteOf(n / 0x100));
            && LdrRegImm(reg, imm) == [LdrWide(imm >= 0), h2]
            && IsThumb2(LdrWide(imm >= 0)) && DecodeWide(LdrWide(imm >= 0), h2) == LdrLit(reg, imm >= 0, Imm12Field(h2))
            && Displacement(imm >= 0, Imm12Field(h2)) == imm
  {
    hide ByteOf, DecodeWide, IsThumb2, LdrWide, RtImm12, RtField, Imm12Field;
    var n := if imm < 0 then -imm else imm;
    WideFields(ByteOf(n), ByteOf(n / 0x100), reg);
    WideDecodes(imm >= 0, RtImm12(reg, ByteOf(n), ByteOf(n / 0x100)));
  }

  // What is emitted is a load of `reg` at Align(PC, 4) + imm.
  ghost predicate LoadsAt(hs: seq<Half>, reg: bv4, imm: int) {
    && hs != []
    && var i := Decode(hs[0], hs[|hs| - 1]);
       2 * |hs| == Size(hs[0]) && i.LdrLit? && i.t == reg && Displacement(i.add, i.imm12) == imm
  }

  /** thumb_writer_put_ldr_reg_imm emits the load asked for exactly when the offset is encodable. */
  lemma LdrRegImmLoads(reg: bv4, imm: int)
    ensures LoadsAt(LdrRegImm(reg, imm), reg, imm) <==> Encodable(reg, imm)
  {
    hide DecodeNarrow, DecodeWide, IsThumb2, LdrWide, LdrNarrow, RtImm12, Imm12Field, Times4, Displacement, LdrRegImm;
    if -0x1000 < imm < 0x1000 {
      if Low(reg) && 0 <= imm < 0x400 {
        NarrowLoad(reg, imm);
      } else {
        WideLoad(reg, imm);
      }
    } else {
      OutOfReach(reg, imm);
    }
  }

  lemma OutOfReach(reg: bv4, imm: int)
    requires !(-0x1000 < imm < 0x1000)
    ensures !LoadsAt(LdrRegImm(reg, imm), reg, imm)
  {
    hide Decode, RtImm12, LdrWide;
  }

  // ----- running what is emitted -----

  // hs has `part` at index i.
  ghost predicate Has(hs: seq<Half>, i: nat, part: seq<Half>) {
    i + |part| <= |hs| && hs[i..i + |part|] == part
  }

  lemma StepsLoad(exec: Exec, s: State, a: int, hs: seq<Half>, i: nat, reg: bv4, imm: int)
    requires M.BytesAt(s.mem, a, Code(hs)) && Encodable(reg, imm) && Has(hs, i, LdrRegImm(reg, imm))
    requires s.pc == a + 2 * i && s.thumb
    ensures Step(exec, s) == Some(SetReg(s.(pc := s.pc + 2 * |LdrRegImm(reg, imm)|), reg,
                                   M.Read32(s.mem, Wrap32(Align4(s.pc + 4) + imm))))
  {
    hide DecodeNarrow, DecodeWide, IsThumb2, Encodable, Code, Step, LdrRegImm, SetReg, Displacement;
    var part := LdrRegImm(reg, imm);
    LdrRegImmLoads(reg, imm);
    assert hs[i] == part[0] && hs[i + |part| - 1] == part[|part| - 1];
    StepsCode(exec, s, a, hs, i);
  }

  lemma StepsNop(exec: Exec, s: State, a: int, hs: seq<Half>, i: nat)
    requires M.BytesAt(s.mem, a, Code(hs)) && Has(hs, i, [NOP]) && s.pc == a + 2 * i && s.thumb
    ensures Step(exec, s) == Some(s.(pc := s.pc + 2))
  {
    hide Code, Step;
    StepsCode(exec, s, a, hs, i);
    assert hs[i] == NOP;
    assert DecodeNarrow(NOP) == MovReg(8, 8) && !IsThumb2(NOP);
    assert s.r[8 := s.r[8]] == s.r;
  }

  // B over 2 * n bytes from where the PC reads.
  lemma StepsB(exec: Exec, s: State, a: int, hs: seq<Half>, i: nat, imm: bv32)
    requires M.BytesAt(s.mem, a, Code(hs)) && Has(hs, i, [BImm(imm)]) && s.pc == a + 2 * i && s.thumb
    requires imm == 2 || imm == 6
    ensures Step(exec, s) == Some(s.(pc := Wrap32(s.pc + 4 + if imm == 2 then 2 else 6)))
  {
    hide Code, Step;
    StepsCode(exec, s, a, hs, i);
    assert hs[i] == BImm(imm);
    assert BImm(2) == 0xe001 && BImm(6) == 0xe003;
    assert DecodeNarrow(BImm(imm)) == BrNarrow(if imm == 2 then 1 else 3) && !IsThumb2(BImm(imm));
  }

  // The bytes of thumb_writer_put_ldr_reg_address at `a`.
  function LdrRegBlock(reg: bv4, lit: U32, a: int): (b: seq<bv8>) {
    Code(LdrRegCode(reg, a % 4 == 0)) + HalfBytes(lit)
  }

  // The bytes of thumb_writer_put_ldr_b_reg_address at `a`.
  function LdrBRegBlock(reg: bv4, lit: U32, a: int): (b: seq<bv8>)
    ensures |b| <= 12
  {
    Code(LdrBRegCode(reg, a % 4 == 0)) + HalfBytes(lit)
  }

  function LoadHalves(reg: bv4): (n: nat) {
    if Low(reg) then 1 else 2
  }

  lemma LoadLengths(reg: bv4)
    ensures |LdrRegImm(reg, 0)| == LoadHalves(reg) && |LdrRegImm(reg, 4)| == LoadHalves(reg)
    ensures Encodable(reg, 0) && Encodable(reg, 4)
  {
  }

  // The first load of a block whose literal follows hs.
  lemma LoadsLiteral(exec: Exec, s: State, a: int, hs: seq<Half>, reg: bv4, imm: int, lit: U32)
    requires M.BytesAt(s.mem, a, Code(hs) + HalfBytes(lit)) && s.pc == a && s.thumb
    requires imm == 0 || imm == 4
    requires Has(hs, 0, LdrRegImm(reg, imm)) && Wrap32(Align4(a + 4) + imm) == a + 2 * |hs|
    ensures Step(exec, s) == Some(SetReg(s.(pc := a + 2 * LoadHalves(reg)), reg, lit))
  {
    hide LdrRegImm, Code, Step, Encodable, HalfBytes, LoadHalves, Wrap32, Align4, Has, SetReg, M.BytesAt, M.Read32;
    LoadLengths(reg);
    M.BytesAtSplit(s.mem, a, Code(hs), HalfBytes(lit));
    M.ReadHalf(s.mem, a + 2 * |hs|, lit);
    StepsLoad(exec, s, a, hs, 0, reg, imm);
  }

  lemma Even4(a: int)
    requires a % 2 == 0
    ensures a % 4 == 0 || a % 4 == 2
    ensures Align4(a + 4) == if a % 4 == 0 then a + 4 else a + 2
    ensures (a + 2) % 4 == 2 - a % 4
  {
    var q, r := a / 4, a % 4;
    assert a == 4 * q + r;
    assert a % 2 == r % 2;
  }

  lemma LdrRegPlace(reg: bv4, a: int)
    requires a % 2 == 0 && 0 <= a && a + 12 <= TWO_32
    ensures var imm := if a % 4 == 0 || Low(reg) then 0 else 4;
            var hs := LdrRegCode(reg, a % 4 == 0);
            Wrap32(Align4(a + 4) + imm) == a + 2 * |hs| && Has(hs, 0, LdrRegImm(reg, imm))
  {
    hide Low, LdrRegImm, Code, HalfBytes, Align4;
    Even4(a);
    LoadLengths(reg);
  }

  // A jump by LDR into the PC, with its literal.
  lemma LdrPcLength(lit: U32, a: int)
    requires a % 2 == 0
    ensures |LdrRegBlock(15, lit, a)| == if a % 4 == 0 then 8 else 10
  {
    hide LdrRegImm, Code, HalfBytes;
    LoadLengths(15);
  }

  /**
   * At either alignment and for every register and value, the load of thumb_writer_put_ldr_reg_address reads the
   * literal behind it; into the PC it is a jump there, by the value's low bit to Thumb code or not.
   */
  lemma LdrRegBlockLoads(exec: Exec, reg: bv4, lit: U32, s: State, a: int)
    requires M.BytesAt(s.mem, a, LdrRegBlock(reg, lit, a)) && s.pc == a && s.thumb
    requires a % 2 == 0 && 0 <= a && a + 12 <= TWO_32
    ensures Step(exec, s) == Some(SetReg(s.(pc := a + 2 * LoadHalves(reg)), reg, lit))
  {
    hide LdrRegCode, LdrRegImm, Code, Step, HalfBytes, LoadHalves, Wrap32, Align4, SetReg;
    LdrRegPlace(reg, a);
    LoadsLiteral(exec, s, a, LdrRegCode(reg, a % 4 == 0), reg, if a % 4 == 0 || Low(reg) then 0 else 4, lit);
  }

  // A nop stands between the load and the B for low registers off alignment, and for the others on it.
  function LdrBSteps(reg: bv4, a: int): nat {
    if Low(reg) == (a % 4 == 0) then 2 else 3
  }

  lemma LdrBRegPlace(reg: bv4, a: int)
    requires a % 2 == 0 && 0 <= a && a + 16 <= TWO_32
    ensures var imm := if a % 4 == 0 && Low(reg) then 0 else 4;
            var hs := LdrBRegCode(reg, a % 4 == 0);
            var n := LoadHalves(reg);
            && Wrap32(Align4(a + 4) + imm) == a + 2 * |hs| && Has(hs, 0, LdrRegImm(reg, imm))
            && |hs| == n + LdrBSteps(reg, a) - 1
            && (LdrBSteps(reg, a) == 3 ==> Has(hs, n, [NOP]) && Has(hs, n + 1, [BImm(2)]))
            && (LdrBSteps(reg, a) == 2 ==> Has(hs, n, [BImm(2)]))
  {
    hide Low, LdrRegImm, Code, HalfBytes, BImm, Align4;
    Even4(a);
    LoadLengths(reg);
  }

  /**
   * thumb_writer_put_ldr_b_reg_address leaves the value in the register, changes nothing else and runs on just past
   * the literal, for every register but the PC, every value and either alignment.
   */
  lemma LdrBRegBlockLoads(exec: Exec, reg: bv4, lit: U32, s: State, a: int)
    requires M.BytesAt(s.mem, a, LdrBRegBlock(reg, lit, a)) && s.pc == a && s.thumb && reg != 15
    requires a % 2 == 0 && 0 <= a && a + 16 <= TWO_32
    ensures Run(exec, s, LdrBSteps(reg, a))
         == Some(s.(r := s.r[reg as int := lit], pc := a + |LdrBRegBlock(reg, lit, a)|))
  {
    hide LdrBRegCode, LdrRegImm, Code, Step, HalfBytes, Align4, Has, M.BytesAt;
    var hs, n := LdrBRegCode(reg, a % 4 == 0), LoadHalves(reg);
    LdrBRegPlace(reg, a);
    M.BytesAtSplit(s.mem, a, Code(hs), HalfBytes(lit));
    LoadsLiteral(exec, s, a, hs, reg, if a % 4 == 0 && Low(reg) then 0 else 4, lit);
    var s1 := s.(r := s.r[reg as int := lit], pc := a + 2 * n);
    if LdrBSteps(reg, a) == 3 {
      var s2 := s1.(pc := s1.pc + 2);
      StepsNop(exec, s1, a, hs, n);
      StepsB(exec, s2, a, hs, n + 1, 2);
      assert Run(exec, s1, 2) == Run(exec, s2, 1);
    } else {
      StepsB(exec, s1, a, hs, n, 2);
    }
  }

  // ----- transfers at a register and offset -----

  // Encoding T1 of LDR and STR (immediate), with imm5 == b.
  function TransferNarrow(load: bool, left: bv4, right: bv4, b: bv8): Half {
    0x6000 | ((b as bv16) << 6) | ((right as bv16) << 3) | (left as bv16) | (if load then 0x0800 else 0)
  }

  // The first halfword of encoding T3.
  function TransferWide(load: bool, right: bv4): Half {
    0xf8c0 | (if load then 0x0010 else 0) | (right as bv16)
  }

  // put_transfer_reg_reg_offset_T1: empty where it returns FALSE.
  function TransferT1(load: bool, left: bv4, right: bv4, offset: int): seq<Half> {
    if Low(left) && Low(right) && 0 <= offset < 0x80 then [TransferNarrow(load, left, right, ByteOf(offset / 4))]
    else []
  }

  // put_transfer_reg_reg_offset_T3: at the PC, a literal load as well.
  function TransferT3(load: bool, left: bv4, right: bv4, offset: int): seq<Half> {
    if 0 <= offset < 0x1000 then
      (if right == 15 then LdrRegImm(left, offset) else [])
      + [TransferWide(load, right), RtImm12(left, ByteOf(offset), ByteOf(offset / 0x100))]
    else []
  }

  // A load or store of `left` at `right` + offset.
  predicate Moves(i: Inst, load: bool, left: bv4, right: bv4, offset: int) {
    if load then i.LdrImm? && i.t == left && i.n == right && i.imm12 as int == offset
    else i.StrImm? && i.t == left && i.n == right && i.imm12 as int == offset
  }

  // What is emitted is one instruction, the transfer asked for.
  ghost predicate MovesAt(hs: seq<Half>, load: bool, left: bv4, right: bv4, offset: int) {
    hs != [] && 2 * |hs| == Size(hs[0]) && Moves(Decode(hs[0], hs[|hs| - 1]), load, left, right, offset)
  }

  lemma TransferNarrowDecodes(load: bool, left: bv4, right: bv4, b: bv5)
    requires Low(left) && Low(right)
    ensures var h := TransferNarrow(load, left, right, b as bv8);
            && !IsThumb2(h)
            && DecodeNarrow(h)
               == if load then LdrImm(left, right, (b as bv12) << 2) else StrImm(left, right, (b as bv12) << 2)
    ensures ((b as bv12) << 2) as int == 4 * (b as int)
  {
    hide Imm6Field, Imm8Field, Imm11Field, Imm8Words;
  }

  lemma FiveBits(b: bv8)
    requires b as int < 32
    ensures ((b & 0x1f) as bv5) as bv8 == b && ((b & 0x1f) as bv5) as int == b as int
  {
    assert b < 32;
  }

  /**
   * put_transfer_reg_reg_offset_T1 emits the transfer asked for exactly between low registers, at a multiple of four
   * below 128.
   */
  lemma TransferT1Exact(load: bool, left: bv4, right: bv4, offset: int)
    ensures MovesAt(TransferT1(load, left, right, offset), load, left, right, offset)
       <==> Low(left) && Low(right) && 0 <= offset < 0x80 && offset % 4 == 0
  {
    hide ByteOf, TransferNarrow, DecodeNarrow, DecodeWide, IsThumb2, Low;
    if Low(left) && Low(right) && 0 <= offset < 0x80 {
      var b := ByteOf(offset / 4);
      FiveBits(b);
      TransferNarrowDecodes(load, left, right, (b & 0x1f) as bv5);
    }
  }

  lemma TransferWideDecodes(load: bool, right: bv4, h2: Half)
    requires right != 15
    ensures var h1 := TransferWide(load, right);
            && IsThumb2(h1)
            && DecodeWide(h1, h2) ==
                 if load then LdrImm(RtField(h2), right, Imm12Field(h2))
                 else if RtField(h2) != 15 then StrImm(RtField(h2), right, Imm12Field(h2)) else ReadsPc
  {
    hide Imm12Field, Imm20, Imm24, AdrImm12;
  }

  /**
   * put_transfer_reg_reg_offset_T3 emits the transfer asked for exactly at an offset below 4096, from any register but
   * the PC, which it does not store either. At the PC it emits two literal loads.
   */
  lemma TransferT3Exact(load: bool, left: bv4, right: bv4, offset: int)
    ensures MovesAt(TransferT3(load, left, right, offset), load, left, right, offset)
       <==> 0 <= offset < 0x1000 && right != 15 && (load || left != 15)
  {
    hide ByteOf, RtImm12, TransferWide, DecodeWide, DecodeNarrow, IsThumb2, RtField, Imm12Field, LdrRegImm, TransferT3;
    if 0 <= offset < 0x1000 {
      if right != 15 {
        TransferT3Inside(load, left, right, offset);
      } else {
        TransferT3AtPc(load, left, offset);
      }
    } else {
      TransferT3None(load, left, right, offset);
    }
  }

  lemma TransferT3Inside(load: bool, left: bv4, right: bv4, offset: int)
    requires right != 15 && 0 <= offset < 0x1000
    ensures MovesAt(TransferT3(load, left, right, offset), load, left, right, offset) <==> load || left != 15
  {
    hide ByteOf, RtImm12, TransferWide, DecodeWide, DecodeNarrow, IsThumb2, RtField, Imm12Field, LdrRegImm, TransferT3;
    var b0, b1 := ByteOf(offset), ByteOf(offset / 0x100);
    TransferWideDecodes(load, right, RtImm12(left, b0, b1));
    WideFields(b0, b1, left);
    TransferT3Is(load, left, right, offset);
  }

  lemma TransferT3Is(load: bool, left: bv4, right: bv4, offset: int)
    requires right != 15 && 0 <= offset < 0x1000
    ensures TransferT3(load, left, right, offset)
         == [TransferWide(load, right), RtImm12(left, ByteOf(offset), ByteOf(offset / 0x100))]
  {
    hide ByteOf, RtImm12, TransferWide, LdrRegImm;
  }

  lemma TransferT3AtPc(load: bool, left: bv4, offset: int)
    requires 0 <= offset < 0x1000
    ensures |TransferT3(load, left, 15, offset)| > 2
  {
    hide ByteOf, RtImm12, TransferWide, LdrNarrow, LdrWide;
  }

  lemma TransferT3None(load: bool, left: bv4, right: bv4, offset: int)
    requires !(0 <= offset < 0x1000)
    ensures TransferT3(load, left, right, offset) == []
  {
  }
}
